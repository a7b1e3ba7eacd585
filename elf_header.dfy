/**
 * ELF navigation (System V generic ABI, chapter 4: ELF Identification,
 * Sections, Symbol Table): the magic check, the two header layouts, section
 * header addresses and the resolution of a symbol's value to an address.
 *
 * The 32- and 64-bit structures differ only in where each field sits and how
 * wide it is; they are read through one `Width` parameter.
 */
module ElfHeader {
  import opened ElfRegion

  datatype Width = W32 | W64

  /** EI_CLASS, the index of the class byte in e_ident. */
  const EI_CLASS: nat := 4
  /** sh_type of a symbol table section. */
  const SHT_SYMTAB: nat := 2
  /** Reserved section indices. */
  const SHN_UNDEF: nat := 0
  const SHN_ABS: nat := 0xfff1

  /** ELFMAG0..ELFMAG3: 0x7F 'E' 'L' 'F'. */
  const ElfMagic: seq<byte> := [0x7F, 0x45, 0x4C, 0x46]

  /** ESym_ValidateELF: the image starts with the ELF magic. */
  function ValidateElf(region: Region): (ok: bool)
    ensures ok <==> |region| >= 4 && region[..4] == ElfMagic
  {
    |region| >= 4 && region[0] == 0x7F && region[1] == 0x45 && region[2] == 0x4C && region[3] == 0x46
  }

  /** The three header fields the reader uses. */
  datatype Ehdr = Ehdr(shoff: nat, shentsize: nat, shnum: nat)

  /** Reads e_shoff, e_shentsize and e_shnum from the header at the image base. */
  function ReadEhdr(region: Region, w: Width): (r: Result<Ehdr>)
    ensures r.Err? ==> r.error == OutOfRegion
    ensures w == W32 ==> (r.Ok? <==> 50 <= |region|)
    ensures w == W32 && r.Ok? ==>
      r.value == Ehdr(LittleEndian(region, 32, 4), LittleEndian(region, 46, 2), LittleEndian(region, 48, 2))
    ensures w == W64 ==> (r.Ok? <==> 62 <= |region|)
    ensures w == W64 && r.Ok? ==>
      r.value == Ehdr(LittleEndian(region, 40, 8), LittleEndian(region, 58, 2), LittleEndian(region, 60, 2))
  {
    match w
    case W32 =>
      var shoff :- ReadField(region, 32, 4);
      var shentsize :- ReadField(region, 46, 2);
      var shnum :- ReadField(region, 48, 2);
      Ok(Ehdr(shoff, shentsize, shnum))
    case W64 =>
      var shoff :- ReadField(region, 40, 8);
      var shentsize :- ReadField(region, 58, 2);
      var shnum :- ReadField(region, 60, 2);
      Ok(Ehdr(shoff, shentsize, shnum))
  }

  /** ESym_GetShdr_32 / ESym_GetShdr_64: base + e_shoff + idx * e_shentsize.
      In the 32-bit variant idx is an Elf32_Word and the product is computed in
      32 bits; the sum is a 64-bit pointer sum. There is no check against e_shnum. */
  function ShdrAddr(w: Width, eh: Ehdr, idx: nat): (a: Addr)
    ensures w == W64 ==> a == (eh.shoff + idx * eh.shentsize) % U64
    ensures idx * eh.shentsize < U32 ==> a == (eh.shoff + idx * eh.shentsize) % U64
  {
    match w
    case W32 =>
      assert idx * eh.shentsize < U32 ==> (idx % U32) * eh.shentsize % U32 == idx * eh.shentsize by {
        if idx * eh.shentsize < U32 {
          Scaled32(idx, eh.shentsize);
        }
      }
      (eh.shoff + (idx % U32) * eh.shentsize % U32) % U64
    case W64 => (eh.shoff + idx * eh.shentsize) % U64
  }

  /** Consecutive section headers sit e_shentsize bytes apart while the index
      arithmetic does not wrap; the 64-bit variant never narrows it. */
  lemma ShdrStride(w: Width, eh: Ehdr, idx: nat)
    requires w == W32 ==> (idx + 1) * eh.shentsize < U32
    ensures ShdrAddr(w, eh, idx + 1) == Offset(ShdrAddr(w, eh, idx), eh.shentsize)
  {
    var p := idx * eh.shentsize;
    MulSucc(idx, eh.shentsize);
    ModAddShift(eh.shoff + p, eh.shentsize);
  }

  /** The 32-bit index product does not wrap while it stays below 2^32. */
  lemma Scaled32(i: nat, step: nat)
    requires i * step < U32
    ensures (i % U32) * step % U32 == i * step
  {
    if step > 0 {
      MulAtLeast(i, step);
      SmallMod(i, U32);
      SmallMod(i * step, U32);
    }
  }

  lemma MulSucc(a: nat, b: nat)
    ensures (a + 1) * b == a * b + b
  {
  }

  lemma MulAtLeast(a: nat, b: nat)
    requires b > 0
    ensures a <= a * b
  {
  }

  lemma SmallMod(x: nat, m: nat)
    requires x < m
    ensures x % m == x
  {
  }

  lemma ModAddShift(x: nat, k: nat)
    ensures (x + k) % U64 == (x % U64 + k) % U64
  {
  }

  /** The section-header fields the reader uses, read from the header at `at`
      with the Elf32_Shdr or Elf64_Shdr layout. sh_type sits at byte 4 in both. */
  function ShType(region: Region, at: Addr): (r: Result<nat>)
    ensures r.Err? ==> r.error == OutOfRegion
  {
    ReadField(region, Offset(at, 4), 4)
  }

  function ShOffset(region: Region, w: Width, at: Addr): (r: Result<nat>)
    ensures r.Err? ==> r.error == OutOfRegion
  {
    match w
    case W32 => ReadField(region, Offset(at, 16), 4)
    case W64 => ReadField(region, Offset(at, 24), 8)
  }

  function ShSize(region: Region, w: Width, at: Addr): (r: Result<nat>)
    ensures r.Err? ==> r.error == OutOfRegion
  {
    match w
    case W32 => ReadField(region, Offset(at, 20), 4)
    case W64 => ReadField(region, Offset(at, 32), 8)
  }

  function ShLink(region: Region, w: Width, at: Addr): (r: Result<nat>)
    ensures r.Err? ==> r.error == OutOfRegion
  {
    match w
    case W32 => ReadField(region, Offset(at, 24), 4)
    case W64 => ReadField(region, Offset(at, 40), 4)
  }

  /** sizeof(Elf32_Sym) and sizeof(Elf64_Sym). */
  function EntrySize(w: Width): (n: nat)
    ensures n > 0
  {
    match w
    case W32 => 16
    case W64 => 24
  }

  /** The number of whole entries in a table of `size` bytes. */
  function EntryCount(w: Width, size: nat): (n: nat)
  {
    match w
    case W32 => size / 16
    case W64 => size / 24
  }

  /** The symbol-entry fields the reader uses, decoded, with the table
      position and address the entry was read from. */
  datatype RawSym = RawSym(index: nat, at: Addr, name: nat, value: nat, size: nat, shndx: nat)

  /** Byte position and width of each Elf32_Sym / Elf64_Sym field. */
  datatype SymField = StName | StValue | StSize | StShndx

  function FieldLayout(w: Width, f: SymField): (pw: (nat, nat))
    ensures pw.0 + pw.1 <= EntrySize(w)
  {
    match (w, f)
    case (W32, StName) => (0, 4)
    case (W32, StValue) => (4, 4)
    case (W32, StSize) => (8, 4)
    case (W32, StShndx) => (14, 2)
    case (W64, StName) => (0, 4)
    case (W64, StShndx) => (6, 2)
    case (W64, StValue) => (8, 8)
    case (W64, StSize) => (16, 8)
  }

  /** One field of the symbol entry at `at`. */
  function SymProp(region: Region, w: Width, at: Addr, f: SymField): (r: Result<nat>)
    ensures r.Err? ==> r.error == OutOfRegion
  {
    ReadField(region, Offset(at, FieldLayout(w, f).0), FieldLayout(w, f).1)
  }

  /** Address of entry `index` of a symbol table whose data starts at
      `tableAt`: sh_offset + index * sizeof(ElfN_Sym), as a pointer sum. */
  function EntryAddr(w: Width, tableAt: nat, index: nat): Addr
  {
    match w
    case W32 => (tableAt + 16 * index) % U64
    case W64 => (tableAt + 24 * index) % U64
  }

  /** A field of an entry that lies wholly inside the image. */
  function FieldAt(region: Region, w: Width, at: Addr, f: SymField): nat
    requires at + EntrySize(w) <= |region|
  {
    LittleEndian(region, at + FieldLayout(w, f).0, FieldLayout(w, f).1)
  }

  /** Reads entry `index` of a symbol table whose data starts at `tableAt`;
      the entry has to lie wholly inside the image. */
  function ReadRawSym(region: Region, w: Width, tableAt: nat, index: nat): (r: Result<RawSym>)
    ensures r.Err? ==> r.error == OutOfRegion
    ensures r.Ok? <==> EntryAddr(w, tableAt, index) + EntrySize(w) <= |region|
    ensures r.Ok? ==> r.value.index == index && r.value.at == EntryAddr(w, tableAt, index)
  {
    var at := EntryAddr(w, tableAt, index);
    if at + EntrySize(w) <= |region| then
      Ok(RawSym(index, at, FieldAt(region, w, at, StName), FieldAt(region, w, at, StValue),
                FieldAt(region, w, at, StSize), FieldAt(region, w, at, StShndx)))
    else Err(OutOfRegion)
  }

  /** Each decoded field is the field read at its layout position. */
  lemma ReadRawSymFields(region: Region, w: Width, tableAt: nat, index: nat)
    requires ReadRawSym(region, w, tableAt, index).Ok?
    ensures var e := ReadRawSym(region, w, tableAt, index).value;
      && SymProp(region, w, e.at, StName) == Ok(e.name)
      && SymProp(region, w, e.at, StValue) == Ok(e.value)
      && SymProp(region, w, e.at, StSize) == Ok(e.size)
      && SymProp(region, w, e.at, StShndx) == Ok(e.shndx)
  {
    var at := EntryAddr(w, tableAt, index);
    forall f: SymField ensures Offset(at, FieldLayout(w, f).0) == at + FieldLayout(w, f).0 {
      assert at + FieldLayout(w, f).0 < at + EntrySize(w) <= |region| < U64;
    }
  }

  /** ESym_ComputeOffset_32 / _64: where a symbol's value lands in the image.
      Only the section-relative case reads memory. */
  function ComputeOffset(region: Region, w: Width, eh: Ehdr, sym: RawSym): (r: Result<Option<Addr>>)
    ensures r.Err? ==> r.error == OutOfRegion
  {
    if sym.shndx == SHN_UNDEF then Ok(None)
    else if sym.shndx == SHN_ABS then Ok(Some(sym.value % U64))
    else
      var off :- ShOffset(region, w, ShdrAddr(w, eh, sym.shndx));
      Ok(Some((off + sym.value) % U64))
  }

  /** The three resolution cases: SHN_UNDEF gives NULL, SHN_ABS gives
      base + st_value, any other index gives base + that section's sh_offset +
      st_value (failing only when that header's sh_offset cannot be read). */
  lemma ComputeOffsetCases(region: Region, w: Width, eh: Ehdr, sym: RawSym)
    ensures sym.shndx == SHN_UNDEF ==> ComputeOffset(region, w, eh, sym) == Ok(None)
    ensures sym.shndx == SHN_ABS ==> ComputeOffset(region, w, eh, sym) == Ok(Some(sym.value % U64))
    ensures sym.shndx != SHN_UNDEF && sym.shndx != SHN_ABS ==>
      match ShOffset(region, w, ShdrAddr(w, eh, sym.shndx))
      case Err(_) => ComputeOffset(region, w, eh, sym) == Err(OutOfRegion)
      case Ok(off) => ComputeOffset(region, w, eh, sym) == Ok(Some((off + sym.value) % U64))
  {
  }
}
