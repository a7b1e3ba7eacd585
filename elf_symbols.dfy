/**
 * The symbol-table loader of elf_sym.c: find the symbol table section, follow
 * its sh_link to the string table, read every raw entry, drop the unnamed and
 * zero-valued ones and emit normalized `Symbol`s in table order.
 */
module ElfSymbols {
  import opened ElfRegion
  import opened ElfHeader
  import opened TablePass

  /** ESym_ELFVersion. A zero-filled (calloc'd) slot carries `EvInvalid`. */
  datatype Version = EvInvalid | Ev32 | Ev64 {
    function Code(): nat
    {
      match this
      case EvInvalid => 0
      case Ev32 => 1
      case Ev64 => 2
    }
  }

  function VersionOf(w: Width): (v: Version)
    ensures v != EvInvalid
    ensures v == Ev32 <==> w == W32
  {
    match w
    case W32 => Ev32
    case W64 => Ev64
  }

  /** ESym_Symbol: the width tag, the address of the raw entry it came from,
      its name (the string-table bytes before the NUL), its destination in the
      image (None for NULL), st_value and st_size. */
  datatype Symbol = Symbol(
    elfVersion: Version,
    entry: Addr,
    name: seq<byte>,
    destination: Option<Addr>,
    definition: nat,
    size: nat)

  /** The content of a slot that calloc zero-filled. */
  const Zeroed: Symbol := Symbol(EvInvalid, 0, [], None, 0, 0)

  lemma ZeroedIsTerminator()
    ensures Zeroed.elfVersion.Code() == 0 && Zeroed.elfVersion == EvInvalid
    ensures forall w: Width :: VersionOf(w).Code() != 0
  {
  }

  // ---------------------------------------------------------------------
  // _macro_FindSection(SHT_SYMTAB)

  predicate IsSymtab(region: Region, w: Width, eh: Ehdr, j: nat)
  {
    ShType(region, ShdrAddr(w, eh, j)) == Ok(SHT_SYMTAB)
  }

  /** The section search over indices 0 .. n-1: each header whose type is
      SHT_SYMTAB overwrites the result, so the last one wins. It fails exactly
      when some header among the first n cannot be read. */
  function LastSymtab(region: Region, w: Width, eh: Ehdr, n: nat): (r: Result<Option<Addr>>)
    ensures r.Err? ==> r.error == OutOfRegion
    ensures r.Ok? <==> forall j :: 0 <= j < n ==> ShType(region, ShdrAddr(w, eh, j)).Ok?
  {
    if n == 0 then Ok(None)
    else
      var prev :- LastSymtab(region, w, eh, n - 1);
      var at := ShdrAddr(w, eh, n - 1);
      var t :- ShType(region, at);
      Ok(if t == SHT_SYMTAB then Some(at) else prev)
  }

  /** What the search finds: the header of the LAST symbol-table section, or
      nothing when no header has that type. */
  lemma {:induction false} LastSymtabIsLast(region: Region, w: Width, eh: Ehdr, n: nat)
    ensures LastSymtab(region, w, eh, n) == Ok(None) ==>
      forall j :: 0 <= j < n ==> !IsSymtab(region, w, eh, j)
    ensures LastSymtab(region, w, eh, n).Ok? && LastSymtab(region, w, eh, n).value.Some? ==>
      exists i :: 0 <= i < n && LastSymtab(region, w, eh, n).value.value == ShdrAddr(w, eh, i)
        && IsSymtab(region, w, eh, i)
        && forall j :: i < j < n ==> !IsSymtab(region, w, eh, j)
  {
    if n > 0 {
      LastSymtabIsLast(region, w, eh, n - 1);
      var r := LastSymtab(region, w, eh, n);
      var prev := LastSymtab(region, w, eh, n - 1);
      var t := ShType(region, ShdrAddr(w, eh, n - 1));
      if prev.Ok? && t.Ok? {
        if t.value == SHT_SYMTAB {
          assert IsSymtab(region, w, eh, n - 1);
        } else if prev.value.Some? {
          var i :| 0 <= i < n - 1 && prev.value.value == ShdrAddr(w, eh, i)
            && IsSymtab(region, w, eh, i)
            && forall j :: i < j < n - 1 ==> !IsSymtab(region, w, eh, j);
          assert forall j :: i < j < n ==> !IsSymtab(region, w, eh, j);
        }
      }
      if r.Ok? {
        assert prev.Ok? && t.Ok?;
      }
    }
  }

  lemma {:induction false} LastSymtabErrPersists(region: Region, w: Width, eh: Ehdr, i: nat, n: nat)
    requires i <= n && LastSymtab(region, w, eh, i).Err?
    ensures LastSymtab(region, w, eh, n).Err?
    decreases n - i
  {
    if i < n {
      LastSymtabErrPersists(region, w, eh, i + 1, n);
    }
  }

  /** The section scan loop: every index below e_shnum is visited; a match only
      leaves the switch, never the loop. */
  method FindSymtab(region: Region, w: Width, eh: Ehdr) returns (r: Result<Option<Addr>>)
    ensures r == LastSymtab(region, w, eh, eh.shnum)
  {
    var out: Option<Addr> := None;
    var shn := 0;
    while shn < eh.shnum
      invariant 0 <= shn <= eh.shnum
      invariant LastSymtab(region, w, eh, shn) == Ok(out)
    {
      var section := ShdrAddr(w, eh, shn);
      var t := ShType(region, section);
      if t.Err? {
        LastSymtabErrPersists(region, w, eh, shn + 1, eh.shnum);
        return Err(OutOfRegion);
      }
      if t.value == SHT_SYMTAB {
        out := Some(section);
      }
      shn := shn + 1;
    }
    r := Ok(out);
  }

  // ---------------------------------------------------------------------
  // Raw entries, the filter and normalization

  /** Reads the entries of the table whose data starts at `tableAt`. */
  function Reader(region: Region, w: Width, tableAt: nat): nat -> Result<RawSym>
  {
    (i: nat) => ReadRawSym(region, w, tableAt, i)
  }

  /** The first n raw entries of the table. */
  function RawTable(region: Region, w: Width, tableAt: nat, n: nat): Result<seq<RawSym>>
  {
    Entries(Reader(region, w, tableAt), n)
  }

  /** A table is readable exactly when each of its entries is, and then its
      i-th element is the entry read at position i, which records i. */
  lemma RawTableAt(region: Region, w: Width, tableAt: nat, n: nat)
    ensures RawTable(region, w, tableAt, n).Ok? <==>
      forall i :: 0 <= i < n ==> ReadRawSym(region, w, tableAt, i).Ok?
    ensures RawTable(region, w, tableAt, n).Ok? ==>
      forall i :: 0 <= i < n ==>
        (ReadRawSym(region, w, tableAt, i) == Ok(RawTable(region, w, tableAt, n).value[i])
         && RawTable(region, w, tableAt, n).value[i].index == i)
  {
    EntriesAt(Reader(region, w, tableAt), n);
    assert forall i :: Reader(region, w, tableAt)(i) == ReadRawSym(region, w, tableAt, i);
  }

  /** An entry is kept unless st_value or st_name is zero. */
  predicate Passes(e: RawSym)
  {
    e.value != 0 && e.name != 0
  }

  function IndexOf(e: RawSym): int
  {
    e.index
  }

  /** The kept entries come out in the order of their table positions. */
  lemma KeptInTableOrder(region: Region, w: Width, tableAt: nat, n: nat)
    requires RawTable(region, w, tableAt, n).Ok?
    ensures var kept := Filter(Passes, RawTable(region, w, tableAt, n).value);
      forall a, b :: 0 <= a < b < |kept| ==> kept[a].index < kept[b].index
  {
    var raws := RawTable(region, w, tableAt, n).value;
    RawTableAt(region, w, tableAt, n);
    FilterKeepsOrder(Passes, raws, IndexOf);
  }

  /** One kept entry as an ESym_Symbol: the name is read at
      strtab.sh_offset + st_name, the destination comes from ComputeOffset. */
  function Normalize(region: Region, w: Width, eh: Ehdr, strtabAt: Addr, e: RawSym): (r: Result<Symbol>)
    ensures r.Err? ==> r.error == OutOfRegion
    ensures r.Ok? ==> r.value.elfVersion == VersionOf(w) && r.value.entry == e.at
    ensures r.Ok? ==> r.value.definition == e.value && r.value.size == e.size
  {
    var strOff :- ShOffset(region, w, strtabAt);
    var name :- CString(region, (strOff + e.name) % U64);
    var dest :- ComputeOffset(region, w, eh, e);
    Ok(Symbol(VersionOf(w), e.at, name, dest, e.value, e.size))
  }

  /** Where a normalized symbol's name and destination come from. */
  lemma NormalizeReads(region: Region, w: Width, eh: Ehdr, strtabAt: Addr, e: RawSym)
    requires Normalize(region, w, eh, strtabAt, e).Ok?
    ensures var s := Normalize(region, w, eh, strtabAt, e).value;
      && ShOffset(region, w, strtabAt).Ok?
      && CString(region, (ShOffset(region, w, strtabAt).value + e.name) % U64) == Ok(s.name)
      && ComputeOffset(region, w, eh, e) == Ok(s.destination)
  {
  }

  function Normalizer(region: Region, w: Width, eh: Ehdr, strtabAt: Addr): RawSym -> Result<Symbol>
  {
    (e: RawSym) => Normalize(region, w, eh, strtabAt, e)
  }

  /** _tpl_LoadObject__ReadSymbols: sh_size / entry size raw entries are
      read, filtered and normalized in one pass. No raw entry, or no kept
      entry, gives no symbol array. */
  function ReadSymbolsSpec(region: Region, w: Width, eh: Ehdr, symtabAt: Addr, strtabAt: Addr): (r: Result<seq<Symbol>>)
  {
    var size :- ShSize(region, w, symtabAt);
    var count := EntryCount(w, size);
    if count == 0 then Err(NoSymbols)
    else
      var tableAt :- ShOffset(region, w, symtabAt);
      var syms :- Pass(Reader(region, w, tableAt), Passes, Normalizer(region, w, eh, strtabAt), count);
      if |syms| == 0 then Err(NoSymbols) else Ok(syms)
  }

  /** The loaded symbols are exactly the kept entries of the whole table,
      normalized, in table order. */
  lemma ReadSymbolsKept(region: Region, w: Width, eh: Ehdr, symtabAt: Addr, strtabAt: Addr)
    requires ReadSymbolsSpec(region, w, eh, symtabAt, strtabAt).Ok?
    ensures var size := ShSize(region, w, symtabAt);
      var tableAt := ShOffset(region, w, symtabAt);
      && size.Ok? && tableAt.Ok?
      && RawTable(region, w, tableAt.value, EntryCount(w, size.value)).Ok?
      && var kept := Filter(Passes, RawTable(region, w, tableAt.value, EntryCount(w, size.value)).value);
         kept != [] && MapAll(Normalizer(region, w, eh, strtabAt), kept) == ReadSymbolsSpec(region, w, eh, symtabAt, strtabAt)
  {
    var size := ShSize(region, w, symtabAt).value;
    var tableAt := ShOffset(region, w, symtabAt).value;
    PassIsFilterMap(Reader(region, w, tableAt), Passes, Normalizer(region, w, eh, strtabAt), EntryCount(w, size));
  }

  /** _tpl_LoadObject__ReadSymbols: sh_size / entry size entries are passed
      over; the buffer is then shrunk to exactly the kept symbols (the
      sentinel slot is not retained). */
  method ReadSymbols(region: Region, w: Width, eh: Ehdr, symtabAt: Addr, strtabAt: Addr)
    returns (r: Result<seq<Symbol>>)
    ensures r == ReadSymbolsSpec(region, w, eh, symtabAt, strtabAt)
  {
    var size :- ShSize(region, w, symtabAt);
    var symCount := EntryCount(w, size);
    if symCount == 0 {
      return Err(NoSymbols);
    }
    var tableAt :- ShOffset(region, w, symtabAt);
    // The pass over a calloc'd buffer of symCount + 1 zeroed slots.
    var syms, buffer := RunPass(Reader(region, w, tableAt), Passes, Normalizer(region, w, eh, strtabAt), symCount, Zeroed);
    if syms.Err? {
      return Err(syms.error);
    }
    if |syms.value| == 0 {
      return Err(NoSymbols);
    }
    r := Ok(syms.value);
  }

  // ---------------------------------------------------------------------
  // _macro_ESym_ForEachSymbol

  /** The entries a sentinel walk visits: from index 0 up to (not including)
      the first entry tagged EV_INVALID. The model carries an explicit length,
      so a sequence without a terminator is walked to its end. */
  function UntilSentinel(a: seq<Symbol>): (r: seq<Symbol>)
    ensures r <= a
    ensures forall k :: 0 <= k < |r| ==> r[k].elfVersion != EvInvalid
    ensures |r| < |a| ==> a[|r|].elfVersion == EvInvalid
  {
    if a == [] || a[0].elfVersion == EvInvalid then [] else [a[0]] + UntilSentinel(a[1..])
  }

  lemma {:induction false} UntilSentinelAt(a: seq<Symbol>, n: nat)
    requires n <= |a| && forall k :: 0 <= k < n ==> a[k].elfVersion != EvInvalid
    requires n < |a| ==> a[n].elfVersion == EvInvalid
    ensures UntilSentinel(a) == a[..n]
  {
    if n > 0 {
      assert a[1..][..n - 1] == a[..n][1..];
      UntilSentinelAt(a[1..], n - 1);
    }
  }

  /** The walk itself, returning the entries it visits in order. */
  method ForEachSymbol(symbols: array<Symbol>) returns (visited: seq<Symbol>)
    ensures visited == UntilSentinel(symbols[..])
  {
    visited := [];
    var i := 0;
    while i < symbols.Length && symbols[i].elfVersion != EvInvalid
      invariant 0 <= i <= symbols.Length
      invariant visited == symbols[..i]
      invariant forall k :: 0 <= k < i ==> symbols[k].elfVersion != EvInvalid
    {
      visited := visited + [symbols[i]];
      i := i + 1;
    }
    UntilSentinelAt(symbols[..], i);
  }

  predicate Tagged(s: Symbol)
  {
    s.elfVersion != EvInvalid
  }

  /** The number of loaded symbols (keptSymCount) is the number of table
      positions whose entry passes the filter. */
  lemma ReadSymbolsCount(region: Region, w: Width, eh: Ehdr, symtabAt: Addr, strtabAt: Addr)
    requires ReadSymbolsSpec(region, w, eh, symtabAt, strtabAt).Ok?
    ensures var size := ShSize(region, w, symtabAt);
      var tableAt := ShOffset(region, w, symtabAt);
      && size.Ok? && tableAt.Ok?
      && var n := EntryCount(w, size.value);
         var raw := RawTable(region, w, tableAt.value, n);
         && raw.Ok?
         && |ReadSymbolsSpec(region, w, eh, symtabAt, strtabAt).value| == CountKept(Passes, raw.value)
  {
    var size := ShSize(region, w, symtabAt).value;
    var tableAt := ShOffset(region, w, symtabAt).value;
    var n := EntryCount(w, size);
    var read := Reader(region, w, tableAt);
    var pass := Pass(read, Passes, Normalizer(region, w, eh, strtabAt), n);
    assert ReadSymbolsSpec(region, w, eh, symtabAt, strtabAt) == pass;
    PassCount(read, Passes, Normalizer(region, w, eh, strtabAt), n);
  }

  /** Loaded symbols all carry a valid width tag, so a walk over them runs to
      the end of the array. */
  lemma LoadedWalkVisitsAll(region: Region, w: Width, eh: Ehdr, symtabAt: Addr, strtabAt: Addr)
    requires ReadSymbolsSpec(region, w, eh, symtabAt, strtabAt).Ok?
    ensures UntilSentinel(ReadSymbolsSpec(region, w, eh, symtabAt, strtabAt).value)
         == ReadSymbolsSpec(region, w, eh, symtabAt, strtabAt).value
  {
    var syms := ReadSymbolsSpec(region, w, eh, symtabAt, strtabAt).value;
    var tableAt := ShOffset(region, w, symtabAt).value;
    var norm := Normalizer(region, w, eh, strtabAt);
    assert forall e :: norm(e) == Normalize(region, w, eh, strtabAt, e);
    PassOutputsHave(Reader(region, w, tableAt), Passes, norm,
                    EntryCount(w, ShSize(region, w, symtabAt).value), Tagged);
    UntilSentinelAt(syms, |syms|);
    assert syms[..|syms|] == syms;
  }

  // ---------------------------------------------------------------------
  // ESym_ElfProp

  /** Reads a raw field of the entry a symbol came from: the Elf32_Sym layout
      when the tag is EV_32, the Elf64_Sym layout otherwise. A field inside
      the image is its little-endian value at the entry plus its position. */
  function ElfProp(region: Region, sym: Symbol, f: SymField): (r: Result<nat>)
    ensures r.Err? ==> r.error == OutOfRegion
    ensures var pw := FieldLayout(if sym.elfVersion == Ev32 then W32 else W64, f);
      sym.entry + pw.0 + pw.1 <= |region| ==> r == Ok(LittleEndian(region, sym.entry + pw.0, pw.1))
  {
    SymProp(region, if sym.elfVersion == Ev32 then W32 else W64, sym.entry, f)
  }

  /** Each loaded symbol is the normalization of a table entry that passes
      the filter. */
  lemma SymbolOrigin(region: Region, w: Width, eh: Ehdr, symtabAt: Addr, strtabAt: Addr, j: nat)
    returns (tableAt: nat, i: nat, e: RawSym)
    requires ReadSymbolsSpec(region, w, eh, symtabAt, strtabAt).Ok?
    requires j < |ReadSymbolsSpec(region, w, eh, symtabAt, strtabAt).value|
    ensures ReadRawSym(region, w, tableAt, i) == Ok(e) && Passes(e)
    ensures Normalize(region, w, eh, strtabAt, e) == Ok(ReadSymbolsSpec(region, w, eh, symtabAt, strtabAt).value[j])
  {
    var syms := ReadSymbolsSpec(region, w, eh, symtabAt, strtabAt).value;
    var size := ShSize(region, w, symtabAt).value;
    tableAt := ShOffset(region, w, symtabAt).value;
    var n := EntryCount(w, size);
    ReadSymbolsKept(region, w, eh, symtabAt, strtabAt);
    var raws := RawTable(region, w, tableAt, n).value;
    var kept := Filter(Passes, raws);
    MapAllAt(Normalizer(region, w, eh, strtabAt), kept);
    e := kept[j];
    assert Normalizer(region, w, eh, strtabAt)(e) == Ok(syms[j]);
    FilterExactly(Passes, raws);
    assert e in kept;
    i :| 0 <= i < |raws| && raws[i] == e;
    RawTableAt(region, w, tableAt, n);
  }

  /** Reading a kept entry's fields back through ESym_ElfProp gives the
      symbol's definition and size, and a non-zero st_name. */
  lemma KeptEntryAgrees(region: Region, w: Width, eh: Ehdr, strtabAt: Addr, tableAt: nat, i: nat, e: RawSym, s: Symbol)
    requires ReadRawSym(region, w, tableAt, i) == Ok(e) && Passes(e)
    requires Normalize(region, w, eh, strtabAt, e) == Ok(s)
    ensures ElfProp(region, s, StValue) == Ok(s.definition)
    ensures ElfProp(region, s, StSize) == Ok(s.size)
    ensures ElfProp(region, s, StName).Ok? && ElfProp(region, s, StName).value != 0
    ensures s.definition != 0
  {
    ReadRawSymFields(region, w, tableAt, i);
  }

  /** Reading st_value and st_size back through ESym_ElfProp gives a loaded
      symbol's definition and size, and its st_name is non-zero. */
  lemma ElfPropAgrees(region: Region, w: Width, eh: Ehdr, symtabAt: Addr, strtabAt: Addr, j: nat)
    requires ReadSymbolsSpec(region, w, eh, symtabAt, strtabAt).Ok?
    requires j < |ReadSymbolsSpec(region, w, eh, symtabAt, strtabAt).value|
    ensures var s := ReadSymbolsSpec(region, w, eh, symtabAt, strtabAt).value[j];
      && ElfProp(region, s, StValue) == Ok(s.definition)
      && ElfProp(region, s, StSize) == Ok(s.size)
      && ElfProp(region, s, StName).Ok? && ElfProp(region, s, StName).value != 0
      && s.definition != 0
  {
    var tableAt, i, e := SymbolOrigin(region, w, eh, symtabAt, strtabAt, j);
    KeptEntryAgrees(region, w, eh, strtabAt, tableAt, i, e, ReadSymbolsSpec(region, w, eh, symtabAt, strtabAt).value[j]);
  }

  // ---------------------------------------------------------------------
  // _ESym_LoadObject_32 / _ESym_LoadObject_64 and the class dispatch

  /** One width's loader: no symbol-table section gives no array; otherwise
      the string table is the section its sh_link names. */
  function LoadWidthSpec(region: Region, w: Width): (r: Result<seq<Symbol>>)
  {
    var eh :- ReadEhdr(region, w);
    var symtab :- LastSymtab(region, w, eh, eh.shnum);
    if symtab.None? then Err(NoSymbolTable)
    else
      var link :- ShLink(region, w, symtab.value);
      ReadSymbolsSpec(region, w, eh, symtab.value, ShdrAddr(w, eh, link))
  }

  method LoadWidth(region: Region, w: Width) returns (r: Result<seq<Symbol>>)
    ensures r == LoadWidthSpec(region, w)
  {
    var eh :- ReadEhdr(region, w);
    var symtab :- FindSymtab(region, w, eh);
    if symtab.None? {
      return Err(NoSymbolTable);
    }
    var link :- ShLink(region, w, symtab.value);
    var strtab := ShdrAddr(w, eh, link);
    r := ReadSymbols(region, w, eh, symtab.value, strtab);
  }

  /** The class byte e_ident[EI_CLASS] selects the loader: 1 is 32-bit, 2 is
      64-bit (compared against EV_32 and EV_64); any other value loads nothing. */
  function LoadSymbolsSpec(region: Region): (r: Result<seq<Symbol>>)
    ensures |region| > EI_CLASS && region[EI_CLASS] as nat == Ev32.Code() ==> r == LoadWidthSpec(region, W32)
    ensures |region| > EI_CLASS && region[EI_CLASS] as nat == Ev64.Code() ==> r == LoadWidthSpec(region, W64)
    ensures |region| > EI_CLASS && region[EI_CLASS] as nat !in {1, 2} ==> r == Err(BadClass)
  {
    if |region| <= EI_CLASS then Err(OutOfRegion)
    else if region[EI_CLASS] as nat == Ev32.Code() then LoadWidthSpec(region, W32)
    else if region[EI_CLASS] as nat == Ev64.Code() then LoadWidthSpec(region, W64)
    else Err(BadClass)
  }

  /** The loader reports only read failures, a bad class, a missing symbol
      table or an empty one; never a collision. */
  lemma LoadErrorKinds(region: Region)
    ensures LoadSymbolsSpec(region).Err? ==>
      LoadSymbolsSpec(region).error in {OutOfRegion, BadClass, NoSymbolTable, NoSymbols}
  {
    if |region| > EI_CLASS {
      LoadWidthErrorKinds(region, W32);
      LoadWidthErrorKinds(region, W64);
    }
  }

  lemma LoadWidthErrorKinds(region: Region, w: Width)
    ensures LoadWidthSpec(region, w).Err? ==>
      LoadWidthSpec(region, w).error in {OutOfRegion, NoSymbolTable, NoSymbols}
  {
    var eh := ReadEhdr(region, w);
    if eh.Ok? {
      var symtab := LastSymtab(region, w, eh.value, eh.value.shnum);
      if symtab.Ok? && symtab.value.Some? {
        var link := ShLink(region, w, symtab.value.value);
        if link.Ok? {
          ReadErrorKinds(region, w, eh.value, symtab.value.value, ShdrAddr(w, eh.value, link.value));
        }
      }
    }
  }

  lemma ReadErrorKinds(region: Region, w: Width, eh: Ehdr, symtabAt: Addr, strtabAt: Addr)
    ensures ReadSymbolsSpec(region, w, eh, symtabAt, strtabAt).Err? ==>
      ReadSymbolsSpec(region, w, eh, symtabAt, strtabAt).error in {OutOfRegion, NoSymbols}
  {
    var size := ShSize(region, w, symtabAt);
    var tableAt := ShOffset(region, w, symtabAt);
    if size.Ok? && tableAt.Ok? {
      var read := Reader(region, w, tableAt.value);
      var norm := Normalizer(region, w, eh, strtabAt);
      assert forall i: nat :: read(i) == ReadRawSym(region, w, tableAt.value, i);
      assert forall e :: norm(e) == Normalize(region, w, eh, strtabAt, e);
      PassErrFrom(read, Passes, norm, EntryCount(w, size.value), OutOfRegion);
    }
  }

  /** ESym_LoadObject's class dispatch, performed. */
  method LoadSymbols(region: Region) returns (r: Result<seq<Symbol>>)
    ensures r == LoadSymbolsSpec(region)
  {
    if |region| <= EI_CLASS {
      return Err(OutOfRegion);
    }
    var elfClass := region[EI_CLASS] as nat;
    if elfClass == Ev32.Code() {
      r := LoadWidth(region, W32);
    } else if elfClass == Ev64.Code() {
      r := LoadWidth(region, W64);
    } else {
      r := Err(BadClass);
    }
  }
}
