# A verified model of a minimal 32-bit ELF loader

`loader.c` is a tiny static loader for 32-bit x86 ELF executables. It maps the whole
file read-only, checks the four magic bytes `0x7F 'E' 'L' 'F'`, walks the program-header
table and, for every `PT_LOAD` entry, does three things:

- prints a `readelf`-style line;
- computes a page-aligned, fixed, private `mmap` request and issues it;
- reports whether the mapping worked.

After that it hands control to the loaded program's entry point.

This project models that core in Dafny, as pure functions over byte sequences:

- `Bits`: the machine words (`unsigned char`, `short`, `int`). C's `&` is defined bit by
  bit, and the lemmas tie the masks the loader uses (`0xfffff000`, `0xfff`, `0xF`,
  `4`, `2`, `1`) to arithmetic: rounding down to a page, the offset in a page, the low
  nibble, single-bit tests. `>>` is division and unsigned `+` wraps modulo 2^32.
- `Elf`: the `Elf32_Ehdr` and `Elf32_Phdr` layouts, read little-endian from the image.
  Encoders are proved to be the decoders' inverses in both directions.
- `ProgramHeaders`: `foreach_phdr`.
  - The magic check, then the table decoded with the 32-byte stride.
  - The visitor calls as a fold over the decoded table, plus a loop version whose
    contract records the offset each call receives.
  - The C code does no bounds checking. Here a read past the end of the file is the
    error `OutOfBounds` rather than a precondition (see "Left out" for what C reads
    there instead).
- `Format`: the diagnostic formatters.
  - `print_address_hex`: its loop is a method, and its output is proved to parse back
    to the address.
  - `flags_to_str` and `phdr_type_to_str`.
  - The line `print_phdr_readelf` writes.
- `Segment`: `load_phdr`.
  - The mapping request of a `PT_LOAD` entry.
  - The loading visitor. The primitive's answer is an abstract function of the attempts
    so far and the request.
- `Loader`: `main`'s control flow. The results of `open` and of mapping the whole file
  are parameters, and the hand-over to `startup` is a recorded value.
- `Scenarios`: concrete images run through the model.
  - A one-segment executable.
  - An unaligned segment and a wrapped length.
  - A non-loadable entry.
  - Truncated and corrupted images.

The code treats a bad magic as an error: `foreach_phdr` prints "Error: Not a valid ELF
file." and returns 1 (loader.c:91-92). But `main` ignores that status (loader.c:219) and
starts the program anyway, then returns 0. The model follows the code as written, and
Findings adds a driver that checks the status.

## Model

| member | source | states |
|---|---|---|
| Bits.BitAnd | loader.c:174-181 | C's `&` on unsigned operands, defined bit by bit: the result is at most either operand; its value for each mask the loader uses is stated by the mask lemmas below |
| Bits.BitAndCommutes | loader.c:174-181 | `x & y == y & x`, so the mask may be either operand |
| Bits.AddU32 | loader.c:182 | unsigned 32-bit `+` is the sum when it fits below 2^32 and the sum minus 2^32 otherwise |
| Bits.LowMask | loader.c:75 | `x & (2^k - 1)` equals `x mod 2^k`, for every `x` and `k` |
| Bits.HighMask | loader.c:179-180 | for `x < 2^n`, `x & (2^n - 2^k)` equals `x - x mod 2^k`: the low `k` bits are cleared and the others are kept |
| Bits.HighMaskClears | loader.c:179-180 | the mask `2^n - 2^k` clears exactly the `k` lowest bits of any `x < 2^n` |
| Bits.ClearLowMod | loader.c:179-180 | clearing the `k` lowest bits of `x` gives `x - x mod 2^k` |
| Bits.SingleBit | loader.c:121-123 | `x & 2^k` is non-zero exactly when bit `k` of `x` is set |
| Bits.PageAlign | loader.c:179-180 | `v & 0xfffff000` is a multiple of 4096, at most `v` and less than 4096 below it, namely `v - v mod 4096` |
| Bits.PageMask | loader.c:179-180 | `v & 0xfffff000 == v - v mod 4096` for every 32-bit `v` |
| Bits.PageOffset | loader.c:181 | `v & 0xfff == v mod 4096` |
| Bits.OffsetMask | loader.c:181 | `v & 0xfff == v mod 4096` for every 32-bit `v` |
| Bits.LowNibble | loader.c:75 | `addr & 0xF` is `addr mod 16`, a digit below 16 |
| Bits.NibbleMask | loader.c:75 | `v & 0xF == v mod 16` for every 32-bit `v` |
| Bits.FlagSetMeaning | loader.c:121-123 | for the masks 1, 2 and 4, `(v & mask) != 0` iff bit log2(mask) of `v` is 1 |
| Elf.CheckMagic | loader.c:87-90 | the comparisons stop at the first byte that differs: `Matches` iff the image has 4 bytes and they are `0x7F 'E' 'L' 'F'`; `Differs` iff one of the first four bytes (of those present) differs; otherwise the image ended before a difference was found |
| Elf.DecodeEhdr | loader.c:25-40 | `e_ident` is the first 16 bytes; `e_entry`, `e_phoff` and `e_phnum` are the little-endian fields at offsets 24, 28 and 44 |
| Elf.DecodePhdr | loader.c:43-52 | the eight fields, in declaration order, are the eight little-endian words at `off`, `off + 4`, ..., `off + 28` |
| Elf.U16Decode | loader.c:22 | reading back the two little-endian bytes of a half-word gives the half-word |
| Elf.U32Decode | loader.c:19-21 | reading back the four little-endian bytes of a word gives the word |
| Elf.WordBytes | loader.c:19-21 | a word is the sum of its four bytes weighted 1, 2^8, 2^16 and 2^24 |
| Elf.U16Encode | loader.c:22 | encoding a decoded half-word gives back its two bytes |
| Elf.U32Encode | loader.c:19-21 | encoding a decoded word gives back its four bytes |
| Elf.PhdrDecode | loader.c:43-52 | a program header written at any offset is read back field for field |
| Elf.PhdrEncode | loader.c:43-52 | decoding 32 bytes as a program header and encoding it gives back the 32 bytes |
| Elf.EhdrDecode | loader.c:25-40 | an ELF header written at the start of an image is read back field for field |
| Elf.EhdrEncode | loader.c:25-40 | decoding the first 52 bytes and encoding them gives back those bytes |
| ProgramHeaders.Walk | loader.c:84-101 | `BadMagic` iff one of the magic bytes present differs, even in an image shorter than 4 bytes; success iff the magic matches, the header lies in the image and either `e_phnum` is 0 (nothing is read at `e_phoff`) or the `e_phnum` 32-byte records at `e_phoff` lie in the image; entry `i` is the record at `e_phoff + 32*i` |
| ProgramHeaders.ForEachPhdr | loader.c:84-101 | undefined iff the walk reads outside the image; status 1 iff the magic differs, and then the not-ELF message is printed and the context comes back unchanged; otherwise status 0 and nothing printed by the iterator itself |
| ProgramHeaders.RunForEachPhdr | loader.c:84-101 | the byte-by-byte comparison, the header reads and the loop compute the iterator's result; when the status is 1 no call was made and the context is unchanged; with status 0 exactly `e_phnum` calls were made, call `i` at offset `e_phoff + 32*i` |
| ProgramHeaders.VisitTable | loader.c:95-99 | the `for` loop over `n` records at `off` leaves the state of the fold over the table, after `n` calls, call `j` at `off + 32*j` |
| ProgramHeaders.FoldRecord | loader.c:97-99 | folding a recording visitor over a table lists its entries in table order |
| ProgramHeaders.VisitsEveryEntry | loader.c:95-100 | with a valid magic the status is 0 and the visitor sees `e_phnum` entries, entry `i` being the record at `e_phoff + 32*i` |
| ProgramHeaders.BadMagicVisitsNothing | loader.c:87-93 | with a bad magic, for any visitor and any image length, the status is 1, the message is printed and the context comes back untouched |
| Format.CString | loader.c:57-60 | what is written is the longest NUL-free prefix of the buffer, stopping at its first NUL |
| Format.HexCharTable | loader.c:76 | digit `d` is written as character `d` of "0123456789abcdef" |
| Format.DigitValueOfHexChar | loader.c:76 | every written digit reads back as its value |
| Format.DigitValueDomain | loader.c:76 | exactly the sixteen lower-case hexadecimal characters have a digit value |
| Format.ParseHexDigits | loader.c:74-78 | the `n` digits written for `x` read back as `x mod 16^n` |
| Format.HexDigitsOfParse | loader.c:74-78 | a digit string that parses is the string written for its value |
| Format.AddressHex | loader.c:68-82 | the printed field is 11 characters long; its content is stated by `AddressHexShape` and its inverse by `ParseAddressHexOfFormat` |
| Format.AddressHexShape | loader.c:69-80 | the field is "0x", eight lower-case hexadecimal digits that read back as the address, and a space |
| Format.ParseAddressHexOfFormat | loader.c:68-82 | parsing a printed address gives the address back |
| Format.FormatOfParseAddressHex | loader.c:68-82 | printing a parsed field gives the field back, so the format is a bijection |
| Format.FormatAddressHex | loader.c:68-82 | the buffer loop writes 12 bytes: the 11 visible characters of the field and a NUL; what is written up to the NUL is the field |
| Format.FlagsStr | loader.c:119-125 | the letters are a subsequence of "RWE" of at most 3 characters, so they and the NUL fit 4 bytes; 'R', 'W' and 'E' appear iff bits 2, 1 and 0 are set |
| Format.LettersInOrder | loader.c:121-123 | any choice of the three letters, written in order, is a subsequence of "RWE" |
| Format.Classify | loader.c:104-115 | every value other than `Unknown` is the code of the type found |
| Format.ClassifyTypeCode | loader.c:104-115 | every named type is recognised from its code |
| Format.TypeName | loader.c:103-117 | "UNKNOWN" iff the value is none of the listed codes; "LOAD" iff the value is 1 |
| Format.TypeNameTable | loader.c:103-117 | 0..7 are NULL, LOAD, DYNAMIC, INTERP, NOTE, SHLIB, PHDR and TLS; 0x70000000 is LOPROC, 0x7fffffff is HIPROC; any other value is UNKNOWN |
| Format.TypeNameDetermines | loader.c:103-117 | two values with the same name other than "UNKNOWN" are equal |
| Format.HexFieldAt | loader.c:136-140 | field `k` of consecutive hexadecimal fields is the field of value `k` |
| Format.ReadelfLine | loader.c:127-147 | the line has length `|type name| + |letters| + 69`, starts with the type name followed by a space, and ends with a newline |
| Format.ReadelfLineField | loader.c:133-140 | each of the five numeric fields after the type name reads back as the header field it shows |
| Format.ReadelfLineTail | loader.c:142-146 | 56 characters after the type name come the permission letters, then a space, then an 11-character field that reads back as `p_align` |
| Segment.ProtOf | loader.c:173-176 | Read iff bit 2 of `p_flags` is set, Write iff bit 1 is set, Exec iff bit 0 is set |
| Segment.ProtOfLowBits | loader.c:173-176 | flags that agree in their three low bits give the same protections: all other bits are ignored |
| Segment.ProtOfCommonFlags | loader.c:173-176 | flags 4, 6, 5, 7 and 0 give {R}, {R,W}, {R,X}, {R,W,X} and {} |
| Segment.FlagsStrMatchesProt | loader.c:121-123 | the letters printed on the segment line name exactly the protections requested |
| Segment.LoadRequest | loader.c:165-184 | no request iff the type is not 1; otherwise address and offset are page-aligned and under a page below the originals, the padding is `p_vaddr mod 4096`, address plus padding is `p_vaddr`, the length is `(p_filesz + padding) mod 2^32`, the protections come from `p_flags`, and the mapping is fixed and private on `fd` |
| Segment.LoadRequestFields | loader.c:178-184 | the request depends only on type, offset, virtual address, file size and flags, not on `p_paddr`, `p_memsz` or `p_align` |
| Segment.CongruentSegment | loader.c:179-181 | when offset and address lie `k` bytes into their pages, both move down by exactly `k` and the padding is `k` |
| Segment.LoadPhdr | loader.c:165-192 | a non-load entry changes nothing; a load entry appends one attempt with the primitive's answer, keeps the earlier output as a prefix, prints its segment line next, and after it prints exactly "Segment mapped successfully." iff the mapping worked and exactly the mmap error iff it failed |
| Segment.AnsweredAppend | loader.c:184-191 | an attempt answered given everything before it extends an answered history by one request |
| Segment.LoadAttempts | loader.c:97-99 | loading a table makes one attempt per PT_LOAD entry, in table order and whatever the answers; each attempt records the primitive's answer given the attempts before it |
| Loader.RunLoader | loader.c:196-225 | exit 1 iff fewer than 2 arguments, a failed open or a failed image mapping, with nothing attempted or started; a run that reads outside the image is `Faulted`; otherwise exit 0 with hand-over to `U32At(image, 24)` with `argc - 1` and `argv + 1`; after a bad magic the output is the not-ELF message and no mapping was attempted; after a good one the attempts are the requests of the table's PT_LOAD entries, in order, each with the primitive's answer |
| Loader.RunLoaderChecked | loader.c:219-221 | with the status checked, a program is only started for an image with a valid magic and a full header; exit 1 iff an argument, open or mapping error or a bad magic; on exit 0 the attempts are the requests of the table's PT_LOAD entries, each answered |
| Loader.LoadedTable | loader.c:219 | after the iterator has run `load_phdr` over a valid table, one attempt was made per PT_LOAD entry, in table order, each recording the primitive's answer given the earlier attempts |
| Loader.ReturnedRun | loader.c:219-224 | once the iterator has returned status 0, the run exits 0 with the visitor's output and attempts, handing over at the header's entry address |
| Loader.CheckedAgreesOnValidImages | loader.c:219-221 | on images with a valid magic the checked driver behaves exactly as the driver as written |
| Loader.BadMagicIsStarted | loader.c:219-221 | as written, an image with a bad magic is handed over with exit code 0 after the not-ELF message |
| Loader.ZeroImageIsStarted | loader.c:219-221 | 52 zero bytes loaded as `loader prog` start at address 0 with exit code 0 |
| Scenarios.OneSegmentWalk | loader.c:84-101 | an image made of a header and one program header walks to that header and that entry |
| Scenarios.OneSegmentLoads | loader.c:95-99 | the loading visitor is applied to the one entry, once, starting from an empty log |
| Scenarios.OneSegmentRecords | loader.c:95-99 | the recording visitor sees exactly the one entry |
| Scenarios.OneSegmentRun | loader.c:196-225 | loading it maps that entry alone, if it is PT_LOAD, and starts at the header's entry address |
| Scenarios.PageAlignedSegment | loader.c:173-184 | a readable, executable segment at 0x8048000 asks for exactly that address, length 0x100 and {R,X} |
| Scenarios.UnalignedSegment | loader.c:179-182 | 0xABC bytes into its page, the segment maps from the page start and is 0xABC longer |
| Scenarios.WrappedLength | loader.c:182 | a file size plus padding past 2^32 gives a wrapped length |
| Scenarios.DynamicEntryIsVisited | loader.c:97-99 | a DYNAMIC entry is visited but makes no attempt |
| Scenarios.TruncatedImages | loader.c:85-95 | under the bounds rule, an image that ends inside a matching magic, or whose table runs past its end, is out of bounds |
| Scenarios.ShortBadMagic | loader.c:87-93 | the one-byte image `0x00` has a bad magic, not a short read: status 1 and nothing visited |
| Scenarios.EmptyTableAnywhere | loader.c:95-99 | a header with `e_phnum == 0` and `e_phoff == 0xffffffff` walks to an empty table: nothing is read at `e_phoff` |
| Scenarios.CorruptedMagic | loader.c:87-93 | one corrupted magic byte makes the walk fail and the visitor see nothing |

## Left out

- The system calls: `system_call`, `write_str`'s `SYS_WRITE`, and `open`, `lseek` and
  `close` in `main`. They are foreign OS primitives. What `write_str` prints is kept as
  strings: `CString` models `my_strlen`'s stop at the first NUL.
- The actual memory mappings, both the per-segment one and the whole-file one, and
  `startup`. They are foreign primitives. Only their parameters and an abstract
  success or failure are modelled. The hand-over is a recorded `Startup` value, and
  nothing after it (closing `fd`, returning 0) depends on the loaded program.
- The numeric values of `PROT_*` and `MAP_*` come from a system header that is not part
  of this model. Protections and mapping flags are abstract sets.
- `print_phdr_readelf_and_mmap` (loader.c:150-163) is never called. It duplicates the
  protection projection, which `ProtOf` models.
- The arguments passed to `open` (flags 0, mode `O_RDWR`) have no effect on the model.
  Only the sign of the returned descriptor matters.
- The size from `lseek` is not modelled separately. The mapped image is a parameter
  whose length is the file size.
- The image is decoded little-endian. That is what a cast to the structs means on the
  x86 host the loader targets.
- ProgramHeaders.Walk: the C code checks no bounds. The model has an explicit rule
  instead: every read past the end of the file is `OutOfBounds` from the walk and
  `Faulted` from the driver. The whole-file mapping (loader.c:211) covers whole pages,
  though, and the rest of the last page reads as zero. So in C, a read that stays inside
  that page is defined, and only one past it may crash. The page size and the zero fill
  belong to the mapping primitive, which is outside the model. Where this rule departs
  from the C code:
  - An image of 1 to 3 bytes that matches the magic as far as it goes (`[0x7F, 'E']` of
    `Scenarios.TruncatedImages`, or `[0x7F, 'E', 'L']`) reads zeros for the rest. So C
    prints the not-ELF message and returns 1, where the model says `OutOfBounds`.
  - Once the magic matches, the whole 52-byte header must lie in the image, although the
    iterator reads only `e_phoff` (bytes 28-31) and `e_phnum` (bytes 44-45). An image
    of 4 to 51 bytes is `OutOfBounds` here. In C, a 40-byte image with a good magic
    reads `e_phnum` as 0, visits nothing and is started.
  - A table that runs past the end of the file is `OutOfBounds` as a whole. The C loop
    visits the entries that fit, and reads zeros for the rest of the last page.
- Loader.RunLoader: by the same bounds rule, a run whose image is too short for `e_entry`
  (bytes 24-27) is `Faulted`. In C, a bad-magic image under 28 bytes is started at an
  `e_entry` padded with zeros.
- ProgramHeaders.ForEachPhdr and Loader.RunLoader: the image is assumed to stay unchanged
  during the walk, because the model decodes it once, before any visit. The C code reads
  the file mapping again as it goes:
  - `e_phnum` at every loop test (loader.c:97);
  - `phdr_table[i]` after the earlier `load_phdr` calls (loader.c:98);
  - `e_entry` after the walk (loader.c:221).

  Each `load_phdr` maps a segment with `MAP_FIXED` at an address taken from the file
  (loader.c:184). If that range covers the pages of the file's own mapping, the later
  reads see the segment's bytes instead. That aliasing is not modelled: what the mapping
  primitive does to memory is outside the model.
- Loader.RunLoader: on an image with a valid magic, the printed output is stated entry by
  entry through `Segment.LoadPhdr` (each segment line followed by its report), not as one
  string for the whole run.
- `Loader.RunLoader`: the loaded program is assumed to return from `startup`, so the
  run is recorded as exiting with code 0 right after the hand-over.
- No zero-fill for `p_memsz > p_filesz`, no congruence check between `p_vaddr` and
  `p_offset`, no entry-address validation, and no class, byte-order or version checks.
  The code has none of these, so the model adds none.

## Findings

| source | as written | input that shows it | evidently intended | confidence | as-written member | corrected member |
|---|---|---|---|---|---|---|
| loader.c:219-221 | `main` discards `foreach_phdr`'s status and always calls `startup(argc - 1, argv + 1, e_entry)`, then returns 0 | 52 zero bytes as the file, run as `loader prog`: "Error: Not a valid ELF file." is printed, then control jumps to address 0 and the exit code is 0 | a bad magic aborts the load with exit code 1, and nothing is started | not executed | Loader.ZeroImageIsStarted | Loader.RunLoaderChecked |
