/**
 * The mapped, read-only ELF image and the primitive reads the symbol reader
 * performs on it.
 *
 * Every pointer the C code computes is the region base plus an unsigned
 * 64-bit quantity, wrapped to 64 bits. The model keeps only that quantity,
 * reduced mod 2^64 (an `Addr`): two absolute pointers are equal exactly when
 * their `Addr`s are, and an `Addr` designates a byte of the image exactly when
 * it is below the image length. A NULL pointer is `None`.
 */
module ElfRegion {

  newtype byte = x: int | 0 <= x < 256

  const U32: nat := 0x1_0000_0000
  const U64: nat := 0x1_0000_0000_0000_0000

  /** A pointer into the image, as a wrapped 64-bit offset from its base. */
  type Addr = x: nat | x < U64

  /** The image; a mapping is smaller than the 64-bit address space. */
  type Region = r: seq<byte> | |r| < U64

  /** What goes wrong while reading an image. All reads outside the image are
      undefined behaviour in the source and become `OutOfRegion` here. */
  datatype Error =
    | OutOfRegion     // a read at an address outside the image
    | BadClass        // e_ident[EI_CLASS] is neither 1 nor 2
    | NoSymbolTable   // no section of type SHT_SYMTAB
    | NoSymbols       // the symbol table holds no usable entry
    | Collision       // two symbols share a name or a destination
    | NullDeref       // a vtable symbol without a destination

  datatype Result<+T> = Ok(value: T) | Err(error: Error) {
    predicate IsFailure() { Err? }
    function PropagateFailure<U>(): Result<U>
      requires Err?
    {
      Err(error)
    }
    function Extract(): T
      requires Ok?
    {
      value
    }
  }

  datatype Option<+T> = None | Some(value: T)

  /** Pointer arithmetic: `at + k`, wrapped to 64 bits. */
  function Offset(at: Addr, k: nat): (r: Addr)
    ensures r == (at + k) % U64
  {
    (at + k) % U64
  }

  /** Unsigned little-endian value of the `n` bytes at `at` (x86-64 native
      order). */
  function LittleEndian(region: Region, at: nat, n: nat): nat
    requires at + n <= |region|
    decreases n
  {
    if n == 0 then 0 else region[at] as nat + 256 * LittleEndian(region, at + 1, n - 1)
  }

  /** Reads an `n`-byte unsigned field at `at`. */
  function ReadField(region: Region, at: Addr, n: nat): (r: Result<nat>)
    ensures r.Ok? <==> at + n <= |region|
    ensures r.Err? ==> r.error == OutOfRegion
    ensures r.Ok? ==> r.value == LittleEndian(region, at, n)
  {
    if at + n <= |region| then Ok(LittleEndian(region, at, n)) else Err(OutOfRegion)
  }

  /** The NUL-terminated string starting at `at`, without its terminator.
      A string is found exactly when a NUL follows `at` in the image; it is
      then the NUL-free run of bytes up to the first one. A string that runs
      to the end of the image without a NUL is out of region. */
  function CString(region: Region, at: nat): (r: Result<seq<byte>>)
    decreases |region| - at
    ensures r.Err? ==> r.error == OutOfRegion
    ensures r.Err? ==> forall k :: at <= k < |region| ==> region[k] != 0
    ensures r.Ok? ==> at + |r.value| < |region| && region[at + |r.value|] == 0
    ensures r.Ok? ==> r.value == region[at..at + |r.value|] && 0 !in r.value
  {
    if at >= |region| then Err(OutOfRegion)
    else if region[at] == 0 then Ok([])
    else
      match CString(region, at + 1)
      case Err(e) => Err(e)
      case Ok(rest) =>
        assert [region[at]] + rest == region[at..at + 1 + |rest|];
        Ok([region[at]] + rest)
  }
}
