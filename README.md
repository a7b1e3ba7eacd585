# vmt-tool in Dafny

A model of the core of vmt-tool: the ELF symbol reader `elf_sym` and the
`vmt-dumper` program built on it. `vmt-dumper` maps an ELF image, loads its
symbols, and prints a block for every symbol whose name contains `_ZTV` (a C++
virtual table in the Itanium ABI). Each block shows the table's offset-to-top
word, its typeinfo word and its virtual function pointers.

The model follows the C code step by step.

- **`ElfRegion` (the image).** The mapped image is a `seq<byte>` shorter than
  2^64.
  - Every pointer is kept as an `Addr`: its offset from the mapping base, wrapped
    to 64 bits.
  - NULL is `None`.
  - Every read outside the image is undefined behaviour in C. Here it is
    `Err(OutOfRegion)`.
  - Fields are read little-endian (x86-64 order).
- **`ElfHash`.** `ESym_StringHash`, with wrap-around mod 2^64 and a signed `char`.
- **`ElfHeader`.** ELF identification, the two header layouts, section-header
  addresses (including the 32-bit index product of `ESym_GetShdr_32`), one
  symbol entry and `ESym_ComputeOffset`.
- **`TablePass`.** The read–filter–convert pass of
  `_tpl_LoadObject__ReadSymbols`, generic over the reader, the filter and the
  conversion.
  - A method that runs the pass over a buffer of `count + 1` zero-filled slots,
    as calloc gives.
  - Lemmas relating that method to separate filter and map steps.
- **`ElfSymbols`.** The loader for one width:
  - the search for the section of type `SHT_SYMTAB`, in which the last match wins;
  - the symbol pass, which drops entries whose `st_value` or `st_name` is zero;
  - the walk to the sentinel slot (`_macro_ESym_ForEachSymbol`);
  - `ESym_ElfProp`;
  - the dispatch on the class byte.
- **`ElfIndex`.** `ESym_Handle` as a class.
  - Its two gchashmaps are maps from the key to the symbol's position in the
    array.
  - `ESym_LoadObject` inserts every symbol by name and then by destination, and
    fails on the first key that is already present.
  - The two lookups.
- **`VmtText`.** printf's `%lX`, `%lu` and `%04lX` on natural numbers, with
  their inverse.
- **`VmtDumper`.** `vdump_CheckSymbolVMT`, `vdump_PrintVMT` and the selection
  loop of `main`.
  - Every `fprintf` call becomes one `Line` value, whose `Text()` gives the
    characters it writes.
  - stdout is the sequence of those lines.

Each routine that loops or changes state is a `method`. It is proved equal to a
specification function (`FindSymtab`, `RunPass`, `ReadSymbols`, `LoadWidth`,
`LoadSymbols`, `ForEachSymbol`, `PrintVmt`, `DumpSymbols`, `DumpImage`), or it
states its whole effect on the `Handle` (`LoadObject` and the `Handle`
methods). The properties are proved about those functions.

The model reproduces three behaviours of the C code exactly as written:

- when several sections have type `SHT_SYMTAB`, the last one wins;
- two undefined symbols (NULL destination) share the address key, so they
  collide and the load fails;
- the vtable's entry count is `st_size / 8`, so the dump reads two words past
  the table.

## Model

| member | source | states |
|---|---|---|
| ElfHash.Hash | elf_sym.h:46-52 | the fold over a NUL-free string is a 64-bit value (its steps are `HashAppend`) |
| ElfHash.CharValue | elf_sym.h:48 | a byte is read as a signed char: the value lies in -128..127 and is congruent to the byte mod 256 |
| ElfHash.StringHash | elf_sym.h:44-55 | the loop returns the fold `Hash` over exactly the bytes before the first NUL, or over the whole input when it holds no NUL |
| ElfHash.CStrOfPrefix | elf_sym.h:49 | the bytes a C string routine sees are the NUL-free prefix that stops at the first NUL |
| ElfHash.HashOfEmpty | elf_sym.h:46 | the empty string hashes to the seed 1125899906842597 |
| ElfHash.HashAppend | elf_sym.h:51 | one more non-NUL byte performs one step `31 * hash + c` mod 2^64 |
| ElfHash.HashStopsAtNul | elf_sym.h:49 | bytes after the first NUL do not change the hash |
| ElfRegion.ReadField | elf_sym.c:155-158 | a field read succeeds exactly when it lies inside the image; it then yields the little-endian value, and otherwise `OutOfRegion` |
| ElfRegion.CString | elf_sym.c:140-141 | a name is found exactly when a NUL follows its start in the image, and it is the NUL-free run of bytes up to that NUL; otherwise the read is out of region |
| ElfHeader.ValidateElf | elf_sym.c:61-67 | true exactly when the image starts with 0x7F 'E' 'L' 'F' |
| ElfHeader.ReadEhdr | elf_sym.c:124 | e_shoff, e_shentsize and e_shnum are the little-endian fields at bytes 32/4, 46/2, 48/2 of an Elf32_Ehdr and 40/8, 58/2, 60/2 of an Elf64_Ehdr; the read succeeds exactly when the image holds 50 or 62 bytes, and otherwise fails as out of region |
| ElfHeader.ShdrAddr | elf_sym.c:78-92 | the 64-bit variant is e_shoff + idx * e_shentsize wrapped to 64 bits; the 32-bit variant gives the same address while idx * e_shentsize stays below 2^32 |
| ElfHeader.ShdrStride | elf_sym.c:78-79 | consecutive section headers sit e_shentsize bytes apart, for every index in the 64-bit variant and while the index product does not wrap in the 32-bit one |
| ElfHeader.FieldLayout | elf_sym.c:145 | every symbol field read lies within sizeof(Elf32_Sym) or sizeof(Elf64_Sym) |
| ElfHeader.ReadRawSym | elf_sym.c:137-138 | entry `index` is read at sh_offset + index * entry size; the read succeeds exactly when the whole entry lies in the image, and records its index and address |
| ElfHeader.ReadRawSymFields | elf_sym.c:155-164 | each decoded field of an entry equals the field read at its layout position |
| ElfHeader.ComputeOffset | elf_sym.c:97-115 | resolving a symbol's value fails only by reading a section header outside the image (the cases are `ComputeOffsetCases`) |
| ElfHeader.ComputeOffsetCases | elf_sym.c:97-115 | SHN_UNDEF gives NULL; SHN_ABS gives base + st_value; any other index gives base + that section's sh_offset + st_value, and fails only when that header cannot be read |
| TablePass.EntriesAt | elf_sym.c:153-155 | reading n entries succeeds exactly when each entry can be read, and element i is entry i |
| TablePass.EntriesErrPersists | elf_sym.c:153-155 | a failed read of the first i entries is also the result for any longer table |
| TablePass.FilterSnoc | elf_sym.c:157-160 | one more entry is appended to the kept ones exactly when it passes |
| TablePass.FilterExactly | elf_sym.c:157-158 | an entry is kept exactly when it is in the table and passes |
| TablePass.FilterKeepsOrder | elf_sym.c:153-160 | kept entries keep their relative table order |
| TablePass.FilterNone | elf_sym.c:157-158 | when no entry passes, nothing is kept |
| TablePass.FilterMember | elf_sym.c:160 | every kept entry comes from the table |
| TablePass.FilterCount | elf_sym.c:152-160 | the number of kept entries (keptSymCount) is the number of table positions whose entry passes |
| TablePass.MapAllSnoc | elf_sym.c:160-164 | converting one more kept entry appends its conversion, or fails with the conversion's error |
| TablePass.MapAllAt | elf_sym.c:160-164 | converting all kept entries succeeds exactly when each conversion does, and output i is the conversion of kept entry i |
| TablePass.PassIsFilterMap | elf_sym.c:153-179 | the single pass succeeds exactly when reading all entries and converting the kept ones both succeed, with the same result |
| TablePass.PassErrPersists | elf_sym.c:153-179 | a pass that fails on a prefix of the table fails the same way on the whole table |
| TablePass.PassCount | elf_sym.c:152-160 | a successful pass emits as many symbols as there are table positions whose entry passes the filter |
| TablePass.PassErrFrom | elf_sym.c:153-179 | the pass fails only with an error that reading or converting reports |
| TablePass.PassOutputsHave | elf_sym.c:160-178 | a property of every successful conversion holds of every symbol the pass emits |
| TablePass.RunPass | elf_sym.c:148-179 | the pass over a calloc'd buffer of count + 1 zero slots returns the pass's result; the kept symbols fill the front of the buffer and every slot after them is still zero |
| ElfSymbols.VersionOf | elf_sym.c:166-177 | a loaded symbol's tag is never EV_INVALID, and it is EV_32 exactly for the 32-bit loader |
| ElfSymbols.ZeroedIsTerminator | elf_sym.h:15-20 | a zero-filled slot carries EV_INVALID (code 0), and both valid tags are non-zero |
| ElfSymbols.LastSymtab | elf_sym.c:122-135 | the search over the first n headers succeeds exactly when every one of their sh_type fields can be read, and otherwise fails as out of region |
| ElfSymbols.LastSymtabIsLast | elf_sym.c:122-135 | the search yields NULL only when no section is a symbol table, and otherwise the header of the last one whose sh_type is SHT_SYMTAB |
| ElfSymbols.LastSymtabErrPersists | elf_sym.c:124-127 | an unreadable header among the first i makes the whole search fail |
| ElfSymbols.FindSymtab | elf_sym.c:122-135 | the scan over all e_shnum headers computes the last-symtab search |
| ElfSymbols.RawTableAt | elf_sym.c:153-155 | the raw table is readable exactly when each entry is, and element i is entry i and records position i |
| ElfSymbols.KeptInTableOrder | elf_sym.c:153-160 | the kept entries come out in increasing table position |
| ElfSymbols.Normalize | elf_sym.c:160-178 | a converted symbol carries the loader's width tag, its entry's address, st_value as definition and st_size as size, and fails only by reading outside the image |
| ElfSymbols.NormalizeReads | elf_sym.c:161-164 | a converted symbol's name is the string at strtab.sh_offset + st_name, and its destination is ComputeOffset of its entry |
| ElfSymbols.ReadSymbolsKept | elf_sym.c:143-194 | a successful read is exactly the non-empty list of kept entries of the whole table, converted, where the table has sh_size / entry size entries |
| ElfSymbols.ReadSymbolsCount | elf_sym.c:152-183 | the number of loaded symbols (keptSymCount) is the number of positions among the sh_size / entry size raw entries whose entry has non-zero st_value and st_name |
| ElfSymbols.ReadSymbols | elf_sym.c:143-194 | reading the symbols computes `ReadSymbolsSpec`: no entry, or no kept entry, gives no array (`NoSymbols`), and otherwise the array shrunk to the kept symbols |
| ElfSymbols.UntilSentinel | elf_sym.h:57-58 | the walk visits a prefix of the array in which no entry is EV_INVALID, and stops only at an EV_INVALID entry or the end |
| ElfSymbols.UntilSentinelAt | elf_sym.h:57-58 | when the first EV_INVALID entry is at n (or there is none and n is the length), the walk visits exactly the first n entries |
| ElfSymbols.ForEachSymbol | elf_sym.h:57-58 | the sentinel loop visits exactly `UntilSentinel` of the array, in order |
| ElfSymbols.LoadedWalkVisitsAll | elf_sym.c:171-175 | every loaded symbol carries a valid tag, so a walk over the loaded array visits all of them |
| ElfSymbols.SymbolOrigin | elf_sym.c:153-164 | every loaded symbol is the conversion of a readable table entry that passes the filter |
| ElfSymbols.ElfProp | elf_sym.h:65-66 | a field read through the symbol's width tag (Elf32_Sym layout for EV_32, Elf64_Sym otherwise) is the little-endian value at the entry plus the field's position, when it lies in the image; it fails only as out of region |
| ElfSymbols.KeptEntryAgrees | elf_sym.h:65-66 | for a kept entry, st_value and st_size read back through ESym_ElfProp give the symbol's definition and size, and st_name is non-zero |
| ElfSymbols.ElfPropAgrees | elf_sym.h:65-66 | for every loaded symbol, ESym_ElfProp of st_value and st_size gives its definition and size, st_name is non-zero, and the definition is non-zero |
| ElfSymbols.LoadWidth | elf_sym.c:196-234 | the loader for one width: no symbol-table section gives `NoSymbolTable`; otherwise the string table is the section named by sh_link, and the symbols are read from them |
| ElfSymbols.LoadSymbolsSpec | elf_sym.c:239-250 | class byte 1 selects the 32-bit loader, 2 the 64-bit loader, and any other value loads nothing (`BadClass`) |
| ElfSymbols.LoadErrorKinds | elf_sym.c:196-250 | loading fails only by reading outside the image, a bad class, no symbol table or no symbols, never by a collision |
| ElfSymbols.LoadSymbols | elf_sym.c:239-250 | the class dispatch computes `LoadSymbolsSpec` |
| ElfIndex.KeyIndexDistinct | elf_sym.c:268-293 | maps that index every symbol's key at its own position exist only over distinct keys |
| ElfIndex.KeyIndexSnoc | elf_sym.c:268-293 | inserting a new key at the next position extends the index |
| ElfIndex.KeyIndexPresent | elf_sym.c:268-270 | the HMDR_FIND put reports the next key as present exactly when it repeats an earlier key |
| ElfIndex.BuildIndex | elf_sym.c:262-295 | the insertion loop fails only with `Collision`; on success its two maps index every symbol by name and by destination |
| ElfIndex.BuildIndexIffUnique | elf_sym.c:262-301 | the insertion loop succeeds exactly when all names are distinct and all destinations are distinct |
| ElfIndex.BuildIndexStep | elf_sym.c:266-294 | one iteration: the symbol's name is looked up first, then its destination; either being present aborts, and otherwise both are inserted at its position |
| ElfIndex.BuildIndexPrefixErr | elf_sym.c:270-287 | a collision among the first i symbols aborts the whole load |
| ElfIndex.NullDestinationsCollide | elf_sym.c:30-34 | two NULL destinations compare equal, so two undefined symbols make the load fail |
| ElfIndex.Handle.constructor | elf_sym.c:252-260 | a new handle holds the symbol array and two empty maps |
| ElfIndex.Handle.PutByName | elf_sym.c:266-279 | the name put reports found exactly when the name is already in the map, and otherwise inserts it; nothing else changes |
| ElfIndex.Handle.PutByAddr | elf_sym.c:281-294 | the same for the destination map |
| ElfIndex.Handle.Destroy | elf_sym.c:9-20 | the symbol array and both maps are released, and the handle is no longer live |
| ElfIndex.Handle.GetSymbolByName | elf_sym.c:304-319 | on a valid handle: some symbol is returned exactly when one's name equals the query up to its first NUL (as strcmp compares), and it is that symbol |
| ElfIndex.Handle.GetSymbolByAddr | elf_sym.c:321-336 | on a valid handle: some symbol is returned exactly when one has that destination, and it is the symbol with that destination |
| ElfIndex.LoadObject | elf_sym.c:236-302 | a failed symbol load is passed on; a repeated name or destination destroys the handle and gives NULL (`Collision`); otherwise a fresh, valid handle over exactly the loaded symbols |
| VmtText.DigitValueOfDigit | vmt-dumper.c:101 | each printed digit reads back as its value |
| VmtText.ToBase | vmt-dumper.c:101-102 | a rendering is a non-empty digit string with no leading zero that denotes the number |
| VmtText.ToBaseOfFromBase | vmt-dumper.c:101-102 | every digit string without a leading zero is the rendering of the number it denotes, so together with `ToBase` each is the inverse of the other |
| VmtText.FromBasePositive | vmt-dumper.c:101-102 | a digit string that does not start with 0 denotes a positive number |
| VmtText.Hex | vmt-dumper.c:101 | `%lX` writes hexadecimal digits that denote the number |
| VmtText.Decimal | vmt-dumper.c:102 | `%lu` writes decimal digits that denote the number |
| VmtText.FromBaseLeadingZeros | vmt-dumper.c:105 | leading zeros do not change the number a digit string denotes |
| VmtText.Pad4Hex | vmt-dumper.c:105 | `%04lX` writes max(4, length of `%lX`) hexadecimal digits that denote the number and end with its `%lX` rendering |
| VmtText.HexRun | vmt-dumper.c:112 | the hexadecimal digit run at the start of a string ends at the first non-digit |
| VmtText.HexRunOf | vmt-dumper.c:112 | the digit run of a digit string followed by a non-digit is exactly that string |
| VmtDumper.Contains | vmt-dumper.c:77 | the left-to-right strstr scan finds the pattern exactly when it occurs contiguously at some position |
| VmtDumper.CheckSymbolVmt | vmt-dumper.c:74-78 | true exactly when "_ZTV" occurs contiguously somewhere in the name |
| VmtDumper.WordsFailOutside | vmt-dumper.c:92-94 | a vtable word fails to read only by lying outside the image |
| VmtDumper.Chars | vmt-dumper.c:100 | the name is written one character per byte, in order |
| VmtDumper.FunctionLinesSnoc | vmt-dumper.c:109-112 | each further function pointer adds one line whose read offset is 8 more than the previous one |
| VmtDumper.Line.Text | vmt-dumper.c:100-106 | the name line is '+' followed by the name's bytes, one character each; after its 16-character label, the definition line reads back as the definition in hexadecimal and the entries line as the count in decimal; the typeinfo line is "   +", the padded offset that reads back as the offset, " typeinfo = " and the value in hexadecimal |
| VmtDumper.VmtBlock | vmt-dumper.c:88-113 | a symbol without a destination is a NULL dereference; a printed block has 5 + st_size / 8 lines |
| VmtDumper.PrintVmt | vmt-dumper.c:85-115 | the routine reads the header words and loops over st_size / 8 pointers; it computes `VmtBlock` |
| VmtDumper.DecodeVTableAt | vmt-dumper.c:48-52 | the cat1 table reads exactly when baseoffset (word 0), typeinfo (word 8) and each function pointer (word 16 + 8i) read, and each field is that word |
| VmtDumper.RenderedLayout | vmt-dumper.c:100-113 | a block has 5 + N lines: the name, the definition in hex, the entry count, the offset-to-top and typeinfo lines at +0000, then pointer i at offset 8(i+1) |
| VmtDumper.VmtBlockLayout | vmt-dumper.c:88-113 | a printed block reads the table at the symbol's destination and has that layout |
| VmtDumper.VmtBlockOkIff | vmt-dumper.c:88-95 | a block without a destination is a NULL dereference; otherwise it prints exactly when all 2 + N words are readable; it fails only in those two ways |
| VmtDumper.VmtBlockInBounds | vmt-dumper.c:92-112 | a table whose 2 + N words lie inside the image always prints |
| VmtDumper.SlotLineReadsBack | vmt-dumper.c:105 | a slot line parses back to its offset and value |
| VmtDumper.SlotPartsReadBack | vmt-dumper.c:112 | a slot line made of two non-empty hex digit strings parses back to the numbers they denote |
| VmtDumper.SlotTextsDistinct | vmt-dumper.c:112 | two slot lines have the same text only for the same offset and value |
| VmtDumper.ZeroOffsetLabels | vmt-dumper.c:105-106 | the two lines at read offset 0 both start with "   +0000" |
| VmtDumper.DumpSnoc | vmt-dumper.c:178-184 | one more symbol adds its block when its name carries the marker, and nothing otherwise |
| VmtDumper.DumpErrPersists | vmt-dumper.c:178-184 | a block that fails among the first i symbols ends the dump there |
| VmtDumper.DumpSymbols | vmt-dumper.c:178-184 | the loop over the symbol array computes `DumpSpec`: the blocks of the marked symbols, in array order |
| VmtDumper.DumpHasLength | vmt-dumper.c:178-184 | a dump has 5 + st_size / 8 lines for each marked symbol and none for the others |
| VmtDumper.NoVmtNoOutput | vmt-dumper.c:180-183 | with no marked symbol, nothing is printed |
| VmtDumper.DumpImage | vmt-dumper.c:170-189 | an image without the ELF magic prints nothing; a failed load is passed on; a load that collides prints nothing; otherwise the dump of the loaded symbols |

## Left out

- **Outside the model:**
  - `main`'s argument handling, `open`, `fstat` and `mmap` (vmt-dumper.c:121-163), and the `munmap`/`close` epilogue (vmt-dumper.c:214-215), are file I/O. The image is a parameter.
  - Every `fprintf` to stderr (vmt-dumper.c:90, 127, 188, 211; elf_sym.c:271-289) is diagnostics only.
  - stdout is modelled as the sequence of lines, without a `FILE*`.
- **Hash maps and memory:**
  - The gchashmap internals are not modelled: buckets, the hash functions used as bucket keys, and rehashing. The maps are Dafny maps keyed by name bytes or by destination, so they compare keys as `_ESym_Map_SymbolCmp_Name` and `_ESym_Map_SymbolCmp_Addr` do. `ElfHash.StringHash` is modelled on its own.
  - Allocation failures are left out: `malloc`, `calloc` and `realloc` returning NULL, and `HMPR_FAILED`.
  - `free` is not modelled beyond `Handle.Destroy` clearing the handle.
  - The `mockSymbol` probe record allocated by the two lookups is not modelled.
- **Pointers:**
  - Raw pointer casts are not modelled. Neither is the `elfSym_32`/`elfSym_64` union, apart from the entry address each symbol records, nor `_macro_ESym_GetElfPtr`.
  - Names are read while loading, as byte strings. C keeps pointers into the image and reads them later.
  - ElfIndex.LoadObject: because every kept symbol's name is read before indexing, a name that runs to the end of the image without a NUL fails the load with `OutOfRegion` even when C would stop earlier. C first reads a name in the insertion loop, which ends at the first collision, so if an earlier pair of symbols collides C returns a NULL handle and `main` prints nothing. `DumpImage` gives `Err(OutOfRegion)` for such an image instead of empty output.
- **The sentinel:**
  - In C, the realloc'd symbol array keeps no sentinel slot, so the walks in `ESym_LoadObject` and `main` run past its end.
  - `LoadObject` and `DumpSymbols` walk the array with its explicit length instead.
  - `ForEachSymbol` models the sentinel walk on its own.
- **Undefined behaviour, made explicit in `LoadObject`:**
  - When the class is not 1 or 2, or there is no symbol table or usable symbol, the C code walks a NULL array.
  - `LoadObject` returns the loader's error instead (`BadClass`, `NoSymbolTable`, `NoSymbols`).
- **Undefined behaviour, made explicit in `VmtBlock`:**
  - A vtable symbol with a NULL destination is dereferenced in `vdump_PrintVMT`. It gives `NullDeref`.
  - A read outside the image gives `OutOfRegion`.
  - In both cases the block fails as a whole. Lines already written before the crash are not modelled.
- **The entry count:**
  - `vdump_PrintVMT` divides the whole `st_size` of `_ZTV` by 8, which includes the two header words. It therefore prints two pointer words beyond the table.
  - The model reproduces this and does not record it as a defect.
- **Entry bounds:**
  - ElfHeader.ReadRawSym: requires the whole entry to lie inside the image. C reads only the fields it uses.
  - Fields of an entry that runs past the end of the image are reported as `OutOfRegion`.
- **Types:**
  - `ElfHeader.ShdrAddr` wraps the 32-bit index product to 32 bits. C's promotions narrow the product that way only for the 32-bit variant; the 64-bit sum stays 64-bit.
  - `ElfHash.CharValue`: assumes `char` is signed, as on the x86-64 target.
  - `ElfIndex.Handle.GetSymbolByAddr` takes the query address as an image offset, with `None` for 0 (NULL). A `ptrwidth_t` that points outside the image is not modelled.
  - `VmtDumper.Chars`: the name is written one char per byte, with no character encoding.
- **Not reached:**
  - Code that nothing in the core calls is left out: the `cat2` member (`vdump_VTable_C2`, vmt-dumper.c:54-59) of the union through which `vdump_PrintVMT` reads the table (only `cat1` is read, as `DecodeVTable` models), and the commented-out and unused helpers (vmt-dumper.c:14, 24-33, 191-206).
