/**
 * vmt-dumper: for every loaded symbol whose name carries the `_ZTV` marker
 * (the Itanium C++ ABI's special name for a virtual table, section 5.1.4),
 * print a block describing the table at the symbol's destination, read with
 * the simple vtable layout of section 2.5.2 of that ABI: offset-to-top,
 * typeinfo pointer, then the virtual function pointers, one 8-byte word each.
 *
 * Output is modelled as the sequence of lines written to stdout (without
 * their newlines); a name is written byte for byte, one char per byte.
 */
module VmtDumper {
  import opened ElfRegion
  import opened ElfHeader
  import opened TablePass
  import opened ElfSymbols
  import opened ElfIndex
  import opened VmtText

  // ---------------------------------------------------------------------
  // vdump_CheckSymbolVMT

  /** "_ZTV". */
  const VmtMarker: seq<byte> := [0x5F, 0x5A, 0x54, 0x56]

  /** pat occurs in s starting at position k. */
  predicate OccursAt(s: seq<byte>, pat: seq<byte>, k: nat)
  {
    k + |pat| <= |s| && s[k..k + |pat|] == pat
  }

  /** strstr(s, pat) != NULL: the scan from the left finds the pattern exactly
      when it occurs at some position. */
  function Contains(s: seq<byte>, pat: seq<byte>): (b: bool)
    decreases |s|
    ensures b <==> exists k: nat :: OccursAt(s, pat, k)
  {
    if |s| < |pat| then false
    else if s[..|pat|] == pat then
      assert OccursAt(s, pat, 0);
      true
    else
      var rest := Contains(s[1..], pat);
      assert rest <==> exists k: nat :: OccursAt(s, pat, k) by {
        if exists k: nat :: OccursAt(s, pat, k) {
          var k: nat :| OccursAt(s, pat, k);
          assert k != 0;
          assert s[1..][k - 1..k - 1 + |pat|] == s[k..k + |pat|];
          assert OccursAt(s[1..], pat, k - 1);
        }
        if rest {
          var k: nat :| OccursAt(s[1..], pat, k);
          assert s[k + 1..k + 1 + |pat|] == s[1..][k..k + |pat|];
          assert OccursAt(s, pat, k + 1);
        }
      }
      rest
  }

  /** vdump_CheckSymbolVMT: the name contains "_ZTV" as a contiguous run. */
  function CheckSymbolVmt(name: seq<byte>): (b: bool)
    ensures b <==> exists k: nat :: OccursAt(name, VmtMarker, k)
  {
    Contains(name, VmtMarker)
  }

  // ---------------------------------------------------------------------
  // The vtable words (vdump_VTable_C1)

  /** The 8-byte words of the table at `at`, by byte offset into it. */
  function Words(region: Region, at: Addr): nat -> Result<nat>
  {
    (k: nat) => ReadField(region, Offset(at, k), 8)
  }

  /** Every word read fails only by lying outside the image. */
  lemma WordsFailOutside(region: Region, at: Addr)
    ensures forall k: nat :: Words(region, at)(k).Err? ==> Words(region, at)(k).error == OutOfRegion
  {
  }

  /** The virtual function pointers: pointer i is the word 16 + 8i bytes in. */
  function FunctionWords(word: nat -> Result<nat>): nat -> Result<nat>
  {
    (i: nat) => word(16 + 8 * i)
  }

  /** vdump_VTable_C1 as read: baseoffset, typeinfo, the function pointers. */
  datatype VTable = VTable(baseOffset: nat, typeinfo: nat, functions: seq<nat>)

  /** Reads the cat1 layout through `word`, with n function pointers. */
  function DecodeVTable(word: nat -> Result<nat>, n: nat): (r: Result<VTable>)
  {
    var baseOffset :- word(0);
    var typeinfo :- word(8);
    var functions :- Entries(FunctionWords(word), n);
    Ok(VTable(baseOffset, typeinfo, functions))
  }

  /** The number of entries: st_size / sizeof(ptrdiff_t). */
  function FnCount(size: nat): nat
  {
    size / 8
  }

  // ---------------------------------------------------------------------
  // The lines of one block

  function Chars(b: seq<byte>): (s: string)
    ensures |s| == |b| && forall k :: 0 <= k < |b| ==> s[k] as int == b[k] as int
  {
    seq(|b|, k requires 0 <= k < |b| => (b[k] as int) as char)
  }

  /** The four pieces of a concatenation are its consecutive slices. */
  lemma Slices4(a: string, b: string, c: string, d: string)
    ensures var t := a + b + c + d;
      && t[..|a|] == a && t[|a|..|a| + |b|] == b
      && t[|a| + |b|..|a| + |b| + |c|] == c && t[|a| + |b| + |c|..] == d
  {
  }

  /** The text between a slot's offset and its value. */
  const SlotMiddle: string := " (??? (*)(...)) 0x"

  /** One fprintf call of vdump_PrintVMT, by format string. */
  datatype Line =
    | NameLine(name: seq<byte>)               // "+%s"
    | DefinitionLine(definition: nat)         // "   ... offset:  %lX"
    | EntriesLine(count: nat)                 // "   ... entries: %lu"
    | SlotLine(offset: nat, value: nat)       // "   +%04lX (??? (*)(...)) 0x%lX"
    | TypeinfoLine(offset: nat, value: nat)   // "   +%04lX typeinfo = %lX"
  {
    /** The characters the call writes, without the newline. The name line
        is '+' and one character per name byte; after their 16-character
        labels, the definition and the entry count read back as the numbers
        printed, and after "   +" and the padded offset, the typeinfo line
        reads back as its offset, its label and its value. */
    function Text(): (s: string)
      ensures NameLine? ==> |s| == 1 + |name| && s[0] == '+'
      ensures NameLine? ==> forall k :: 0 <= k < |name| ==> s[1 + k] as int == name[k] as int
      ensures DefinitionLine? ==> |s| > 16 && AllDigits(s[16..], 16) && FromBase(s[16..], 16) == definition
      ensures EntriesLine? ==> |s| > 16 && AllDigits(s[16..], 10) && FromBase(s[16..], 10) == count
      ensures TypeinfoLine? ==>
        var p := |Pad4Hex(offset)|;
        && |s| > 16 + p && s[..4] == "   +" && FromBase(s[4..4 + p], 16) == offset
        && s[4 + p..16 + p] == " typeinfo = "
        && AllDigits(s[16 + p..], 16) && FromBase(s[16 + p..], 16) == value
    {
      match this
      case NameLine(name) =>
        var t := "+" + Chars(name);
        assert t[1..] == Chars(name);
        t
      case DefinitionLine(d) =>
        var t := "   ... offset:  " + Hex(d);
        assert t[16..] == Hex(d);
        t
      case EntriesLine(n) =>
        var t := "   ... entries: " + Decimal(n);
        assert t[16..] == Decimal(n);
        t
      case SlotLine(o, v) => "   +" + Pad4Hex(o) + SlotMiddle + Hex(v)
      case TypeinfoLine(o, v) =>
        var p := Pad4Hex(o);
        var t := "   +" + p + " typeinfo = " + Hex(v);
        Slices4("   +", p, " typeinfo = ", Hex(v));
        t
    }
  }

  /** One line per function pointer; the i-th sits at read offset 8(i+1). */
  function FunctionLines(fs: seq<nat>): (lines: seq<Line>)
    ensures |lines| == |fs|
  {
    seq(|fs|, i requires 0 <= i < |fs| => SlotLine(8 * (i + 1), fs[i]))
  }

  lemma FunctionLinesSnoc(fs: seq<nat>, f: nat)
    ensures FunctionLines(fs + [f]) == FunctionLines(fs) + [SlotLine(8 * (|fs| + 1), f)]
  {
  }

  /** The three header lines and the two lines at read offset 0. */
  function HeaderLines(sym: Symbol, baseOffset: nat, typeinfo: nat): (lines: seq<Line>)
    ensures |lines| == 5
  {
    [NameLine(sym.name), DefinitionLine(sym.definition), EntriesLine(FnCount(sym.size)),
     SlotLine(0, baseOffset), TypeinfoLine(0, typeinfo)]
  }

  /** vdump_PrintVMT as a value: the block for one symbol. A symbol without a
      destination is dereferenced as NULL in the source. */
  function VmtBlock(region: Region, sym: Symbol): (r: Result<seq<Line>>)
    ensures sym.destination.None? ==> r == Err(NullDeref)
    ensures r.Ok? ==> |r.value| == 5 + FnCount(sym.size)
  {
    if sym.destination.None? then Err(NullDeref)
    else
      var vt :- DecodeVTable(Words(region, sym.destination.value), FnCount(sym.size));
      Ok(RenderBlock(sym, vt))
  }

  /** vdump_PrintVMT: reads the two header words, prints the header, then one
      line per function pointer while the read offset advances by 8. */
  method PrintVmt(region: Region, symbol: Symbol) returns (r: Result<seq<Line>>)
    ensures r == VmtBlock(region, symbol)
  {
    if symbol.destination.None? {
      return Err(NullDeref);
    }
    var table := Words(region, symbol.destination.value);
    var baseOffset :- table(0);
    var typeInfo :- table(8);
    var fnCount := FnCount(symbol.size);
    var readOffset := 0;
    var readStep := 8;
    var header := HeaderLines(symbol, baseOffset, typeInfo);
    var lines := header;
    ghost var words: seq<nat> := [];
    for fnIndex := 0 to fnCount
      invariant readOffset == 8 * fnIndex
      invariant Entries(FunctionWords(table), fnIndex) == Ok(words)
      invariant lines == header + FunctionLines(words)
    {
      readOffset := readOffset + readStep;
      var fn := FunctionWords(table)(fnIndex);
      if fn.Err? {
        EntriesErrPersists(FunctionWords(table), fnIndex + 1, fnCount);
        return Err(fn.error);
      }
      FunctionLinesSnoc(words, fn.value);
      lines := lines + [SlotLine(readOffset, fn.value)];
      words := words + [fn.value];
    }
    r := Ok(lines);
  }

  /** The table can be read exactly when its two header words and its n
      function pointers can; each field is then the word at its layout
      position. */
  lemma DecodeVTableAt(word: nat -> Result<nat>, n: nat)
    ensures DecodeVTable(word, n).Ok? <==>
      word(0).Ok? && word(8).Ok? && forall i :: 0 <= i < n ==> FunctionWords(word)(i).Ok?
    ensures DecodeVTable(word, n).Ok? ==>
      var vt := DecodeVTable(word, n).value;
      && word(0) == Ok(vt.baseOffset) && word(8) == Ok(vt.typeinfo)
      && |vt.functions| == n
      && forall i :: 0 <= i < n ==> FunctionWords(word)(i) == Ok(vt.functions[i])
  {
    EntriesAt(FunctionWords(word), n);
  }

  /** A printed block: the header lines, then one line per function pointer. */
  function RenderBlock(sym: Symbol, vt: VTable): seq<Line>
  {
    HeaderLines(sym, vt.baseOffset, vt.typeinfo) + FunctionLines(vt.functions)
  }

  /** The layout of a block rendered from a table read through `word`:
      5 + N lines for N = st_size / 8; the name, the definition and N; the
      word at byte 0 and the typeinfo word at byte 8, both at read offset 0;
      then, for each i below N, function pointer i at read offset 8(i+1). */
  lemma RenderedLayout(sym: Symbol, word: nat -> Result<nat>)
    requires DecodeVTable(word, FnCount(sym.size)).Ok?
    ensures var lines := RenderBlock(sym, DecodeVTable(word, FnCount(sym.size)).value);
      var n := FnCount(sym.size);
      && |lines| == 5 + n
      && lines[0] == NameLine(sym.name)
      && lines[1] == DefinitionLine(sym.definition)
      && lines[2] == EntriesLine(n)
      && word(0).Ok? && lines[3] == SlotLine(0, word(0).value)
      && word(8).Ok? && lines[4] == TypeinfoLine(0, word(8).value)
      && forall i :: 0 <= i < n ==>
           FunctionWords(word)(i).Ok? && lines[5 + i] == SlotLine(8 * (i + 1), FunctionWords(word)(i).value)
  {
    var n := FnCount(sym.size);
    DecodeVTableAt(word, n);
    var vt := DecodeVTable(word, n).value;
    var fl := FunctionLines(vt.functions);
    var lines := RenderBlock(sym, vt);
    forall i | 0 <= i < n
      ensures lines[5 + i] == SlotLine(8 * (i + 1), FunctionWords(word)(i).value)
    {
      assert lines[5 + i] == fl[i];
    }
  }

  /** The layout of a printed block, reading the table at the symbol's
      destination. */
  lemma VmtBlockLayout(region: Region, sym: Symbol)
    requires VmtBlock(region, sym).Ok?
    ensures sym.destination.Some?
    ensures var lines := VmtBlock(region, sym).value;
      var word := Words(region, sym.destination.value);
      var n := FnCount(sym.size);
      && |lines| == 5 + n
      && lines[0] == NameLine(sym.name)
      && lines[1] == DefinitionLine(sym.definition)
      && lines[2] == EntriesLine(n)
      && word(0).Ok? && lines[3] == SlotLine(0, word(0).value)
      && word(8).Ok? && lines[4] == TypeinfoLine(0, word(8).value)
      && forall i :: 0 <= i < n ==>
           FunctionWords(word)(i).Ok? && lines[5 + i] == SlotLine(8 * (i + 1), FunctionWords(word)(i).value)
  {
    RenderedLayout(sym, Words(region, sym.destination.value));
  }

  /** When the block can be read: never without a destination; otherwise
      exactly when the two header words and all N function words lie in the
      image. */
  lemma VmtBlockOkIff(region: Region, sym: Symbol)
    ensures sym.destination.None? ==> VmtBlock(region, sym) == Err(NullDeref)
    ensures sym.destination.Some? ==>
      (VmtBlock(region, sym).Ok? <==>
        var word := Words(region, sym.destination.value);
        word(0).Ok? && word(8).Ok? && forall i :: 0 <= i < FnCount(sym.size) ==> FunctionWords(word)(i).Ok?)
    ensures VmtBlock(region, sym).Err? ==> VmtBlock(region, sym).error in {NullDeref, OutOfRegion}
  {
    if sym.destination.Some? {
      var word := Words(region, sym.destination.value);
      DecodeVTableAt(word, FnCount(sym.size));
      WordsFailOutside(region, sym.destination.value);
      EntriesErrFrom(FunctionWords(word), FnCount(sym.size), OutOfRegion);
    }
  }

  /** A table lying wholly inside the image, N function words after the two
      header words, is always printed. */
  lemma VmtBlockInBounds(region: Region, sym: Symbol)
    requires sym.destination.Some?
    requires sym.destination.value + 16 + 8 * FnCount(sym.size) <= |region|
    ensures VmtBlock(region, sym).Ok?
  {
    var at := sym.destination.value;
    var word := Words(region, at);
    forall i | 0 <= i < FnCount(sym.size) ensures FunctionWords(word)(i).Ok? {
      assert at + 16 + 8 * i + 8 <= |region| < U64;
    }
    VmtBlockOkIff(region, sym);
  }

  // ---------------------------------------------------------------------
  // Reading a slot line back

  /** Splits a line of the form "   +<digits> (??? (*)(...)) 0x<value>" into
      the numbers its two hexadecimal fields denote. */
  function ParseSlotLine(line: string): Option<(nat, nat)>
  {
    if |line| < 4 || line[..4] != "   +" then None
    else
      var rest := line[4..];
      var k := HexRun(rest);
      var tail := rest[k..];
      if k == 0 || |tail| < |SlotMiddle| || tail[..|SlotMiddle|] != SlotMiddle then None
      else
        var value := tail[|SlotMiddle|..];
        if value == [] || !AllDigits(value, 16) then None
        else Some((FromBase(rest[..k], 16), FromBase(value, 16)))
  }

  /** Every slot line reads back as its offset and value. */
  lemma SlotLineReadsBack(offset: nat, value: nat)
    ensures ParseSlotLine(SlotLine(offset, value).Text()) == Some((offset, value))
  {
    var digits := Pad4Hex(offset);
    var v := Hex(value);
    assert SlotLine(offset, value).Text() == "   +" + (digits + (SlotMiddle + v));
    SlotPartsReadBack(digits, v);
  }

  /** A slot line assembled from two non-empty hexadecimal digit strings
      splits back into them. */
  lemma SlotPartsReadBack(digits: string, v: string)
    requires digits != [] && AllDigits(digits, 16) && v != [] && AllDigits(v, 16)
    ensures ParseSlotLine("   +" + (digits + (SlotMiddle + v))) == Some((FromBase(digits, 16), FromBase(v, 16)))
  {
    var line := "   +" + (digits + (SlotMiddle + v));
    assert line[..4] == "   +";
    assert line[4..] == digits + (SlotMiddle + v);
    HexRunOf(digits, SlotMiddle + v);
    assert (digits + (SlotMiddle + v))[..|digits|] == digits;
    assert (digits + (SlotMiddle + v))[|digits|..] == SlotMiddle + v;
    assert (SlotMiddle + v)[..|SlotMiddle|] == SlotMiddle;
    assert (SlotMiddle + v)[|SlotMiddle|..] == v;
  }

  /** Two slot lines print the same text only for the same offset and value. */
  lemma SlotTextsDistinct(o1: nat, v1: nat, o2: nat, v2: nat)
    requires SlotLine(o1, v1).Text() == SlotLine(o2, v2).Text()
    ensures o1 == o2 && v1 == v2
  {
    SlotLineReadsBack(o1, v1);
    SlotLineReadsBack(o2, v2);
  }

  /** The two lines at read offset 0 are both labelled +0000. */
  lemma ZeroOffsetLabels(baseOffset: nat, typeinfo: nat)
    ensures SlotLine(0, baseOffset).Text()[..8] == "   +0000"
    ensures TypeinfoLine(0, typeinfo).Text()[..8] == "   +0000"
  {
    assert Hex(0) == "0";
    assert Pad4Hex(0) == "0000";
  }

  // ---------------------------------------------------------------------
  // The selection loop in main

  predicate IsVmtSymbol(s: Symbol)
  {
    CheckSymbolVmt(s.name)
  }

  function Printer(region: Region): Symbol -> Result<seq<Line>>
  {
    (s: Symbol) => VmtBlock(region, s)
  }

  function Flatten(blocks: seq<seq<Line>>): seq<Line>
  {
    if blocks == [] then [] else Flatten(blocks[..|blocks| - 1]) + blocks[|blocks| - 1]
  }

  /** The symbols whose name carries the marker, each printed, in array order. */
  function DumpSpec(region: Region, syms: seq<Symbol>): Result<seq<Line>>
  {
    var blocks :- MapAll(Printer(region), Filter(IsVmtSymbol, syms));
    Ok(Flatten(blocks))
  }

  /** One more symbol: it adds its block when it is a vtable symbol and
      nothing otherwise. */
  lemma DumpSnoc(region: Region, syms: seq<Symbol>, s: Symbol)
    ensures DumpSpec(region, syms + [s]) ==
      match DumpSpec(region, syms)
      case Err(e) => Err(e)
      case Ok(out) =>
        if !IsVmtSymbol(s) then Ok(out)
        else
          match VmtBlock(region, s)
          case Err(e) => Err(e)
          case Ok(b) => Ok(out + b)
  {
    FilterSnoc(IsVmtSymbol, syms, s);
    var kept := Filter(IsVmtSymbol, syms);
    MapAllSnoc(Printer(region), kept, s);
    var m := MapAll(Printer(region), kept);
    if m.Ok? && IsVmtSymbol(s) && VmtBlock(region, s).Ok? {
      var bs := m.value + [VmtBlock(region, s).value];
      assert bs[..|bs| - 1] == m.value;
    }
  }

  lemma {:induction false} DumpErrPersists(region: Region, syms: seq<Symbol>, i: nat)
    requires i <= |syms| && DumpSpec(region, syms[..i]).Err?
    ensures DumpSpec(region, syms) == DumpSpec(region, syms[..i])
    decreases |syms| - i
  {
    if i < |syms| {
      assert syms[..i + 1] == syms[..i] + [syms[i]];
      DumpSnoc(region, syms[..i], syms[i]);
      DumpErrPersists(region, syms, i + 1);
    } else {
      assert syms[..i] == syms;
    }
  }

  /** The loop in main, over the symbol array with its explicit length. */
  method DumpSymbols(region: Region, syms: seq<Symbol>) returns (r: Result<seq<Line>>)
    ensures r == DumpSpec(region, syms)
  {
    var out: seq<Line> := [];
    var i := 0;
    while i < |syms|
      invariant 0 <= i <= |syms|
      invariant DumpSpec(region, syms[..i]) == Ok(out)
    {
      var sym := syms[i];
      assert syms[..i + 1] == syms[..i] + [sym];
      DumpSnoc(region, syms[..i], sym);
      if CheckSymbolVmt(sym.name) {
        var block := PrintVmt(region, sym);
        if block.Err? {
          DumpErrPersists(region, syms, i + 1);
          return Err(block.error);
        }
        out := out + block.value;
      }
      i := i + 1;
    }
    assert syms[..i] == syms;
    r := Ok(out);
  }

  /** The sum of the block lengths of the vtable symbols. */
  function DumpLength(syms: seq<Symbol>): nat
  {
    if syms == [] then 0
    else
      var s := syms[|syms| - 1];
      DumpLength(syms[..|syms| - 1]) + (if IsVmtSymbol(s) then 5 + FnCount(s.size) else 0)
  }

  /** A dump has 5 + N lines for each vtable symbol and none for any other. */
  lemma {:induction false} DumpHasLength(region: Region, syms: seq<Symbol>)
    requires DumpSpec(region, syms).Ok?
    ensures |DumpSpec(region, syms).value| == DumpLength(syms)
  {
    if syms != [] {
      var p := syms[..|syms| - 1];
      var s := syms[|syms| - 1];
      assert syms == p + [s];
      DumpSnoc(region, p, s);
      DumpHasLength(region, p);
      if IsVmtSymbol(s) {
        VmtBlockLayout(region, s);
      }
    }
  }

  /** Without any symbol carrying the marker nothing is printed. */
  lemma NoVmtNoOutput(region: Region, syms: seq<Symbol>)
    requires forall k :: 0 <= k < |syms| ==> !CheckSymbolVmt(syms[k].name)
    ensures DumpSpec(region, syms) == Ok([])
  {
    FilterNone(IsVmtSymbol, syms);
  }

  // ---------------------------------------------------------------------
  // main, after the image is mapped

  /** What main prints on stdout for an image: nothing for an image without
      the ELF magic or one whose load collides (both only reported on
      stderr); otherwise the dump of the loaded symbols. */
  function DumpImageSpec(region: Region): Result<seq<Line>>
  {
    if !ValidateElf(region) then Ok([])
    else
      match LoadSymbolsSpec(region)
      case Err(e) => Err(e)
      case Ok(syms) => if !UniqueKeys(syms) then Ok([]) else DumpSpec(region, syms)
  }

  method DumpImage(region: Region) returns (r: Result<seq<Line>>)
    ensures r == DumpImageSpec(region)
  {
    if !ValidateElf(region) {
      return Ok([]);
    }
    LoadErrorKinds(region);
    var handle := LoadObject(region);
    if handle.Err? {
      if handle.error == Collision {
        return Ok([]);
      }
      return Err(handle.error);
    }
    r := DumpSymbols(region, handle.value.symbols);
  }
}
