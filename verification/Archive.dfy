/** The ustar archive of sys/tarfs.c as bytes (section "ustar Interchange Format" of the pax
    utility, IEEE Std 1003.1-2017), and what its two walkers, the index and the directory listing
    are meant to find in it. */
module Archive {
  import opened Octal

  const FILE_TYPE := 0
  const DIRECTORY := 5

  // ---- Headers ---------------------------------------------------------------------------

  /** Where the C string at `off` ends. */
  function StrEnd(a: string, off: nat): (r: nat)
    requires off <= |a|
    ensures off <= r <= |a| && (r < |a| ==> a[r] == '\0') && forall i :: off <= i < r ==> a[i] != '\0'
    decreases |a| - off
  {
    if off == |a| || a[off] == '\0' then off else StrEnd(a, off + 1)
  }

  /** header->name. */
  function NameAt(a: string, off: nat): string
    requires off <= |a|
  {
    a[off..StrEnd(a, off)]
  }

  /** The eleven digits of header->size. */
  function SizeDigits(a: string, off: nat): (s: string)
    requires off + 512 <= |a|
    ensures |s| == 11
  {
    a[off + 124..off + 135]
  }

  function SizeAt(a: string, off: nat): int
    requires off + 512 <= |a|
  {
    Value(SizeDigits(a, off), 8)
  }

  /** header->typeflag as stoi reads it: one digit, or none for the old NUL flag. */
  function TypeAt(a: string, off: nat): int
    requires off + 512 <= |a|
  {
    if IsDigit(a[off + 156]) then Digit(a[off + 156]) else 0
  }

  /** A header both walkers can read: a terminated name, an octal size whose decimal reading fits an
      `int`, a type flag whose digits do not run on into the link name. */
  predicate HeaderOk(a: string, off: nat) {
    && off + 512 <= |a|
    && off < StrEnd(a, off) < off + 100
    && IsOctal(SizeDigits(a, off)) && Value(SizeDigits(a, off), 10) < 0x8000_0000 && !IsDigit(a[off + 135])
    && !IsDigit(a[off + 157])
  }

  /** The next header: the size rounded up to blocks, after this one. */
  function Stride(size: nat): nat { 512 + (size + 511) / 512 * 512 }

  function NextOffset(a: string, off: nat): (r: nat)
    requires HeaderOk(a, off)
    ensures r >= off + 512
  {
    ReadersAgree(SizeDigits(a, off));
    off + Stride(SizeAt(a, off))
  }

  predicate ZeroFrom(a: string, off: nat) {
    forall i :: off <= i < |a| ==> a[i] == '\0'
  }

  /** Headers and contents from `off` on, closed by at least one zero block. */
  predicate WellFormed(a: string, off: nat)
    decreases |a| - off
  {
    && off % 512 == 0 && |a| % 512 == 0 && off + 512 <= |a| < 0x8000_0000
    && if a[off] == '\0' then ZeroFrom(a, off)
       else HeaderOk(a, off) && NextOffset(a, off) + 512 <= |a| && WellFormed(a, NextOffset(a, off))
  }

  /** The offsets of the headers from `off` on. */
  function Offsets(a: string, off: nat): seq<nat>
    requires WellFormed(a, off)
    decreases |a| - off
  {
    if a[off] == '\0' then [] else [off] + Offsets(a, NextOffset(a, off))
  }

  /** The offset of the closing zero block. */
  function EndOffset(a: string, off: nat): (r: nat)
    requires WellFormed(a, off)
    ensures off <= r && r % 512 == 0 && r + 512 <= |a| && ZeroFrom(a, r)
    decreases |a| - off
  {
    if a[off] == '\0' then off else EndOffset(a, NextOffset(a, off))
  }

  lemma {:induction false} OffsetsOk(a: string, off: nat, k: nat)
    requires WellFormed(a, off) && k < |Offsets(a, off)|
    ensures HeaderOk(a, Offsets(a, off)[k]) && off <= Offsets(a, off)[k]
    decreases |a| - off
  {
    if k > 0 { OffsetsOk(a, NextOffset(a, off), k - 1); }
  }

  // ---- Strides ---------------------------------------------------------------------------

  /** What tarfs_init adds to its offset. */
  function InitStride(size: nat): nat {
    if size == 0 then 512
    else if size % 512 == 0 then size + 512 else size + (512 - size % 512) + 512
  }

  /** What getElfHeader adds to its address, in `unsigned int` arithmetic. */
  function ScanStride(size: nat): nat {
    (size / 512 + 1) * 512 % U32 + if size % 512 != 0 then 512 else 0
  }

  lemma StridesAgree(size: nat)
    requires size < 0x8000_0000
    ensures InitStride(size) == ScanStride(size) == Stride(size)
  {
    var q, r := size / 512, size % 512;
    assert size == 512 * q + r && (q + 1) * 512 < U32;
    assert (size + 511) / 512 == if r == 0 then q else q + 1;
  }

  /** Over the closing zero blocks the scan jumps by more than a gigabyte. */
  lemma ZeroStride()
    ensures ScanStride(1227133520) == 1227134464
  {
  }

  // ---- The raw scan ----------------------------------------------------------------------

  const NOT_FOUND := -1

  /** The offset of the first header with this name (the closing block has the empty name). */
  function Scan(a: string, off: nat, file: string): int
    requires WellFormed(a, off)
    decreases |a| - off
  {
    if NameAt(a, off) == file then off
    else if a[off] == '\0' then NOT_FOUND
    else Scan(a, NextOffset(a, off), file)
  }

  // ---- The index -------------------------------------------------------------------------

  datatype TarEntry = TarEntry(name: string, size: int, typeflag: int, addr: nat, parInd: int)

  const EMPTY_ENTRY := TarEntry("", 0, 0, 0, 0)
  const NO_PARENT := 999

  /** The largest position from 1 to `i` that holds a slash, or 0. */
  function LastSlash(name: string, i: nat): (p: nat)
    requires i < |name|
    ensures p <= i && (p > 0 ==> name[p] == '/') && forall j :: p < j <= i ==> name[j] != '/'
  {
    if i == 0 then 0 else if name[i] == '/' then i else LastSlash(name, i - 1)
  }

  /** Where the two parent searches start: files at the last character, directories before the
      closing slash. */
  function SearchFrom(name: string, typeflag: int): int {
    if typeflag == DIRECTORY then |name| - 2 else |name| - 1
  }

  /** The parent's name, with its slash; empty for a top-level entry. */
  function ParentName(name: string, typeflag: int): string
    requires SearchFrom(name, typeflag) >= 1
  {
    var p := LastSlash(name, SearchFrom(name, typeflag));
    if p == 0 then "" else name[..p + 1]
  }

  /** The first of these names equal to `name`, or their number. */
  function IndexOfName(names: seq<string>, name: string, i: nat): (r: nat)
    requires i <= |names|
    ensures i <= r <= |names| && (r < |names| ==> names[r] == name) && forall j :: i <= j < r ==> names[j] != name
    decreases |names| - i
  {
    if i == |names| || names[i] == name then i else IndexOfName(names, name, i + 1)
  }

  function Names(a: string, offs: seq<nat>): (r: seq<string>)
    requires forall k :: 0 <= k < |offs| ==> offs[k] <= |a|
    ensures |r| == |offs| && forall k :: 0 <= k < |r| ==> r[k] == NameAt(a, offs[k])
  {
    seq(|offs|, k requires 0 <= k < |offs| => NameAt(a, offs[k]))
  }

  /** par_ind of an entry that comes after `earlier`. */
  function ParentIndex(earlier: seq<string>, name: string, typeflag: int): int
    requires SearchFrom(name, typeflag) >= 1
  {
    var parent := ParentName(name, typeflag);
    if parent == "" then NO_PARENT else IndexOfName(earlier, parent, 0)
  }

  /** An entry whose parent search stays in bounds: a file of at least two characters or a
      directory of at least three, whose parent directory has been listed. */
  predicate Placeable(earlier: seq<string>, name: string, typeflag: int) {
    && (typeflag == FILE_TYPE || typeflag == DIRECTORY)
    && SearchFrom(name, typeflag) >= 1
    && (ParentName(name, typeflag) == "" || ParentName(name, typeflag) in earlier)
  }
}
