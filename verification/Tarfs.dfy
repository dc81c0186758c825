/** The file index of sys/tarfs.c: tarfs_init builds it from the archive, openfile and readdirect
    read it, and getElfHeader scans the archive again without it. */
module Tarfs {
  import opened Octal
  import opened Archive

  function NamesOf(es: seq<TarEntry>): (r: seq<string>)
    ensures |r| == |es| && forall k :: 0 <= k < |r| ==> r[k] == es[k].name
  {
    seq(|es|, k requires 0 <= k < |es| => es[k].name)
  }

  // ---- What tarfs_init is given and what it builds ----------------------------------------

  lemma AllOffsetsOk(a: string)
    requires WellFormed(a, 0)
    ensures forall k :: 0 <= k < |Offsets(a, 0)| ==> HeaderOk(a, Offsets(a, 0)[k])
  {
    forall k | 0 <= k < |Offsets(a, 0)| ensures HeaderOk(a, Offsets(a, 0)[k]) {
      OffsetsOk(a, 0, k);
    }
  }

  /** The names in the archive, in order. */
  function ArchiveNames(a: string): (r: seq<string>)
    requires WellFormed(a, 0)
    ensures |r| == |Offsets(a, 0)|
  {
    AllOffsetsOk(a);
    Names(a, Offsets(a, 0))
  }

  /** At most 99 entries, each a file or a directory listed after its parent directory. */
  ghost predicate Indexable(a: string) {
    && WellFormed(a, 0)
    && |Offsets(a, 0)| <= 99
    && forall k :: 0 <= k < |Offsets(a, 0)| ==>
         && HeaderOk(a, Offsets(a, 0)[k])
         && Placeable(ArchiveNames(a)[..k], ArchiveNames(a)[k], TypeAt(a, Offsets(a, 0)[k]))
  }

  /** The entry for the header at `off` that comes after the entries `earlier`. */
  ghost predicate IsEntry(a: string, base: nat, earlier: seq<TarEntry>, off: nat, e: TarEntry) {
    && HeaderOk(a, off)
    && e.name == NameAt(a, off) && e.size == SizeAt(a, off) && e.typeflag == TypeAt(a, off)
    && e.addr == base + off
    && Linked(earlier, e)
  }

  /** An entry whose parent link is right. */
  ghost predicate Linked(earlier: seq<TarEntry>, e: TarEntry) {
    && Placeable(NamesOf(earlier), e.name, e.typeflag)
    && e.parInd == ParentIndex(NamesOf(earlier), e.name, e.typeflag)
  }

  ghost predicate Prefix(a: string, base: nat, offs: seq<nat>, fs: seq<TarEntry>, n: nat)
    requires n <= |offs| && n <= |fs|
  {
    forall k :: 0 <= k < n ==> IsEntry(a, base, fs[..k], offs[k], fs[k])
  }

  /** The array as tarfs_init leaves it. */
  ghost predicate IndexOf(a: string, base: nat, fs: seq<TarEntry>) {
    && WellFormed(a, 0) && |Offsets(a, 0)| <= 99 && |fs| == 100
    && Prefix(a, base, Offsets(a, 0), fs, |Offsets(a, 0)|)
    && forall k :: |Offsets(a, 0)| <= k < 100 ==> fs[k] == EMPTY_ENTRY
  }

  // ---- Reading one header ------------------------------------------------------------------

  lemma SizeField(a: string, off: nat)
    requires off + 512 <= |a| && IsOctal(SizeDigits(a, off)) && !IsDigit(a[off + 135])
    ensures off + 136 <= |a| && DigitsEnd(a[off + 124..off + 136], 0) == 11
    ensures a[off + 124..off + 136][..11] == SizeDigits(a, off)
  {
    var s := a[off + 124..off + 136];
    assert forall i :: 0 <= i < 11 ==> s[i] == SizeDigits(a, off)[i];
    assert s[11] == a[off + 135];
    assert s[..11] == SizeDigits(a, off);
  }

  lemma TypeField(a: string, off: nat)
    requires HeaderOk(a, off)
    ensures DigitsEnd(a[off + 156..off + 158], 0) <= 1
    ensures Value(a[off + 156..off + 158][..DigitsEnd(a[off + 156..off + 158], 0)], 10) == TypeAt(a, off)
  {
    var s := a[off + 156..off + 158];
    assert s[0] == a[off + 156] && s[1] == a[off + 157];
    if IsDigit(s[0]) {
      assert DigitsEnd(s, 1) == 1;
      assert s[..1][..0] == [];
    }
  }

  /** `octalToDecimal(stoi(header->size))`: the size of the entry when the header is one that both
      walkers can read, and for a header written with size `n`, `n` exactly below 0o2147500000 and in
      one window above. */
  method ReadSize(a: string, off: nat) returns (size: nat)
    requires off + 512 <= |a| && IsOctal(SizeDigits(a, off)) && !IsDigit(a[off + 135])
    ensures HeaderOk(a, off) ==> size == SizeAt(a, off) && size < 0x8000_0000
    ensures forall n: nat :: n < 8589934592 && a[off + 124..off + 135] == OctalField(n, 11) ==>
      (size == n <==> n < 295600128 || (n % 8 == 0 && 2147483648 <= n < 2364801024))
  {
    SizeField(a, off);
    var n := Stoi(a[off + 124..off + 136]);
    size := OctalToDecimal(n);
    ghost var v := Value(SizeDigits(a, off), 10);
    assert size == Reading(v % U64) % U64;
    if HeaderOk(a, off) { ReadersAgree(SizeDigits(a, off)); }
    forall n: nat | n < 8589934592 && a[off + 124..off + 135] == OctalField(n, 11)
      ensures size == n <==> n < 295600128 || (n % 8 == 0 && 2147483648 <= n < 2364801024)
    {
      WrittenSizeReadIff(n);
    }
  }

  /** A header that both walkers can read, written with size `n`. */
  lemma WrittenSize(a: string, off: nat, n: nat)
    requires off + 512 <= |a| && n < 8589934592 && a[off + 124..off + 135] == OctalField(n, 11)
    ensures IsOctal(SizeDigits(a, off)) && SizeAt(a, off) == n
    ensures Value(SizeDigits(a, off), 10) < 0x8000_0000 <==> n < 295600128
  {
    Pow8Eleven();
    OctalFieldValue(n, 11);
    Bounds(n);
  }

  /** `stoi(header->typeflag)`. */
  method ReadType(a: string, off: nat) returns (typeflag: nat)
    requires HeaderOk(a, off)
    ensures typeflag == TypeAt(a, off)
  {
    TypeField(a, off);
    typeflag := Stoi(a[off + 156..off + 158]);
  }

  lemma EarlierNames(a: string, base: nat, fs: seq<TarEntry>, i: nat)
    requires WellFormed(a, 0) && i <= |Offsets(a, 0)| && i <= |fs|
    requires Prefix(a, base, Offsets(a, 0), fs, i)
    ensures NamesOf(fs[..i]) == ArchiveNames(a)[..i]
  {
    forall k | 0 <= k < i ensures NamesOf(fs[..i])[k] == ArchiveNames(a)[k] {
      assert IsEntry(a, base, fs[..k], Offsets(a, 0)[k], fs[k]);
    }
  }

  lemma PrefixGrows(a: string, base: nat, offs: seq<nat>, was: seq<TarEntry>, fs: seq<TarEntry>, i: nat)
    requires i < |offs| && i < |was| == |fs| && fs == was[i := fs[i]]
    requires Prefix(a, base, offs, was, i) && IsEntry(a, base, was[..i], offs[i], fs[i])
    ensures Prefix(a, base, offs, fs, i + 1)
  {
    hide IsEntry;
    forall k | 0 <= k < i + 1 ensures IsEntry(a, base, fs[..k], offs[k], fs[k]) {
      assert fs[..k] == was[..k];
    }
  }

  // ---- Looking up by name ------------------------------------------------------------------

  /** The first file entry called `file` before the first unnamed entry. */
  function FindFile(fs: seq<TarEntry>, file: string, i: nat): int
    requires i <= |fs|
    decreases |fs| - i
  {
    if i == |fs| || fs[i].name == "" then NOT_FOUND
    else if fs[i].name == file && fs[i].typeflag == FILE_TYPE then i
    else FindFile(fs, file, i + 1)
  }

  lemma {:induction false} FindFileIs(fs: seq<TarEntry>, file: string, i: nat)
    requires i <= |fs|
    ensures var r := FindFile(fs, file, i);
      r == NOT_FOUND || (i <= r < |fs| && fs[r].name == file != "" && fs[r].typeflag == FILE_TYPE)
    decreases |fs| - i
  {
    if i < |fs| && fs[i].name != "" { FindFileIs(fs, file, i + 1); }
  }

  lemma {:induction false} FindFileReaches(fs: seq<TarEntry>, file: string, i: nat, k: nat)
    requires i <= k < |fs| && fs[k].name == file && fs[k].typeflag == FILE_TYPE
    requires forall j :: i <= j <= k ==> fs[j].name != ""
    ensures i <= FindFile(fs, file, i) <= k
    decreases k - i
  {
    if i < k { FindFileReaches(fs, file, i + 1, k); }
  }

  /** What openfile returns. */
  function OpenResult(fs: seq<TarEntry>, file: string): nat {
    FindFileIs(fs, file, 0);
    var r := FindFile(fs, file, 0);
    if r == NOT_FOUND then 0 else fs[r].addr
  }

  /** What getElfHeader returns. */
  function ElfResult(a: string, base: nat, file: string): int
    requires WellFormed(a, 0)
  {
    if Scan(a, 0, file) == NOT_FOUND then 0 else base + Scan(a, 0, file) + 512
  }

  /** The scan has reached `off`: at a header with `file` still to come if it is there at all, or,
      past the end, somewhere in the closing zeros, with `file` not there. */
  ghost predicate Scanning(a: string, file: string, off: nat)
    requires WellFormed(a, 0)
  {
    || (WellFormed(a, off) && Scan(a, off, file) == Scan(a, 0, file))
    || (off % 512 == 0 && |a| % 512 == 0 && ZeroFrom(a, off) && file != "" && Scan(a, 0, file) == NOT_FOUND)
  }

  /** A header at the end is all zeros. */
  lemma ZeroHeader(a: string, off: nat)
    requires off + 512 <= |a| && ZeroFrom(a, off)
    ensures SizeAt(a, off) % U32 == 1227133520 && NameAt(a, off) == ""
  {
    var s := SizeDigits(a, off);
    forall i | 0 <= i < 11 ensures s[i] == '\0' {
      assert s[i] == a[off + 124 + i];
    }
    ZeroHeaderSize(s);
  }

  /** One step of the scan, over a header or over the closing zeros. */
  lemma ScanNext(a: string, file: string, off: nat)
    requires WellFormed(a, 0) && Scanning(a, file, off) && off < |a|
    ensures off + 512 <= |a|
    ensures ScanStride(SizeAt(a, off) % U32) > 0
    ensures NameAt(a, off) == file ==> Scan(a, 0, file) == off
    ensures NameAt(a, off) != file ==> Scanning(a, file, off + ScanStride(SizeAt(a, off) % U32))
  {
    hide ScanStride, Stride, SizeAt;
    if WellFormed(a, off) && a[off] != '\0' {
      ReadersAgree(SizeDigits(a, off));
      assert SizeAt(a, off) == Value(SizeDigits(a, off), 8) by { SizeIs(a, off); }
      StridesAgree(SizeAt(a, off));
    } else {
      ZeroHeader(a, off);
      ZeroStride();
      NoName(a, off);
    }
  }

  lemma SizeIs(a: string, off: nat)
    requires off + 512 <= |a|
    ensures SizeAt(a, off) == Value(SizeDigits(a, off), 8)
  {
  }

  // ---- Listing a directory -----------------------------------------------------------------

  /** What the loop of readdirect prints from entry `i` on, `parent` being the last entry named
      `direct` so far, or -1. */
  function Listing(fs: seq<TarEntry>, direct: string, i: nat, parent: int): seq<string>
    requires i <= |fs|
    decreases |fs| - i
  {
    if i == |fs| || fs[i].name == "" then []
    else if fs[i].name == direct then Listing(fs, direct, i + 1, i)
    else if direct <= fs[i].name && fs[i].parInd == parent then
      [fs[i].name[|direct|..]] + Listing(fs, direct, i + 1, parent)
    else Listing(fs, direct, i + 1, parent)
  }

  const ROOTS := "bin/   etc/  boot/   lib/   usr/"

  /** What readdirect prints. */
  function Printed(fs: seq<TarEntry>, direct: string): seq<string> {
    if direct == "" then [ROOTS] else Listing(fs, direct, 0, -1)
  }

  // ---- Reading a file ----------------------------------------------------------------------

  /** A header that a file can be read from: both walkers can read it, and its contents are there. */
  predicate FileAt(a: string, base: nat, addr: nat) {
    && base <= addr && HeaderOk(a, addr - base) && SizeAt(a, addr - base) >= 0
    && addr - base + 512 + SizeAt(a, addr - base) <= |a|
  }

  /** What a request for `size` bytes of that file is served: no more than there are. */
  function Served(a: string, base: nat, addr: nat, size: int): string
    requires FileAt(a, base, addr)
  {
    var start, n := addr - base + 512, SizeAt(a, addr - base);
    a[start..start + if size < 0 then 0 else if size < n then size else n]
  }

  class Tarfs {
    const archive: string
    const base: nat
    const fs: array<TarEntry>
    var numFiles: nat

    constructor (archive: string, base: nat)
      ensures this.archive == archive && this.base == base
      ensures fresh(fs) && fs.Length == 100 && forall k :: 0 <= k < 100 ==> fs[k] == EMPTY_ENTRY
    {
      this.archive := archive;
      this.base := base;
      this.fs := new TarEntry[100](_ => EMPTY_ENTRY);
      this.numFiles := 0;
    }

    /** The two loops that get_per_ind and get_per_ind_file share: back to a slash, then forward
        through the entries for the name that ends there. */
    method ParentFrom(dir: string, start: nat, ghost n: nat) returns (par: int)
      requires 1 <= start < |dir| && n <= fs.Length
      requires LastSlash(dir, start) != 0 ==> dir[..LastSlash(dir, start) + 1] in NamesOf(fs[..n])
      ensures par == if LastSlash(dir, start) == 0 then NO_PARENT
                     else IndexOfName(NamesOf(fs[..n]), dir[..LastSlash(dir, start) + 1], 0)
    {
      var len := start;
      while dir[len] != '/'
        invariant 1 <= len <= start && LastSlash(dir, len) == LastSlash(dir, start)
        decreases len
      {
        len := len - 1;
        if len == 0 {
          return NO_PARENT;
        }
      }
      var name := dir[..len + 1];
      ghost var names := NamesOf(fs[..n]);
      ghost var found := IndexOfName(names, name, 0);
      FoundIn(names, name);
      var i := 0;
      while name != fs[i].name
        invariant i <= found < n && names == NamesOf(fs[..n])
        decreases found - i
      {
        assert names[found] == fs[found].name;
        i := i + 1;
      }
      assert names[i] == fs[i].name;
      par := i;
    }

    method GetPerInd(dir: string, ghost n: nat) returns (par: int)
      requires n <= fs.Length && Placeable(NamesOf(fs[..n]), dir, DIRECTORY)
      ensures par == ParentIndex(NamesOf(fs[..n]), dir, DIRECTORY)
    {
      par := ParentFrom(dir, |dir| - 2, n);
    }

    method GetPerIndFile(dir: string, ghost n: nat) returns (par: int)
      requires n <= fs.Length && Placeable(NamesOf(fs[..n]), dir, FILE_TYPE)
      ensures par == ParentIndex(NamesOf(fs[..n]), dir, FILE_TYPE)
    {
      par := ParentFrom(dir, |dir| - 1, n);
    }

    /** One round of the loop of tarfs_init. */
    method AddEntry(i: nat, temp: nat) returns (next: nat)
      requires i < fs.Length == 100 && HeaderOk(archive, temp)
      requires Placeable(NamesOf(fs[..i]), NameAt(archive, temp), TypeAt(archive, temp))
      modifies fs, this`numFiles
      ensures fs[..] == old(fs[..])[i := fs[i]]
      ensures IsEntry(archive, base, old(fs[..])[..i], temp, fs[i])
      ensures numFiles == old(numFiles) + 1 && next == NextOffset(archive, temp)
    {
      var size := ReadSize(archive, temp);
      var name := NameAt(archive, temp);
      var typeflag := ReadType(archive, temp);
      var parInd := 0;
      if typeflag == FILE_TYPE {
        parInd := GetPerIndFile(name, i);
      } else if typeflag == DIRECTORY {
        parInd := GetPerInd(name, i);
      }
      assert fs[..][..i] == fs[..i];
      numFiles := numFiles + 1;
      fs[i] := TarEntry(name, size, typeflag, base + temp, parInd);
      StridesAgree(size);
      next := if size == 0 then temp + 512
              else temp + if size % 512 == 0 then size + 512 else size + (512 - size % 512) + 512;
    }

    method TarfsInit()
      requires fs.Length == 100 && Indexable(archive)
      requires forall k :: 0 <= k < 100 ==> fs[k] == EMPTY_ENTRY
      modifies fs, this`numFiles
      ensures IndexOf(archive, base, fs[..])
      ensures numFiles == |Offsets(archive, 0)|
    {
      hide IsEntry, HeaderOk, Placeable;
      numFiles := 0;
      var i, temp := 0, 0;
      ghost var offs := Offsets(archive, 0);
      while NameAt(archive, temp) != ""
        invariant WellFormed(archive, temp) && i <= |offs| && offs[i..] == Offsets(archive, temp)
        invariant numFiles == i && Prefix(archive, base, offs, fs[..], i)
        invariant forall k :: i <= k < 100 ==> fs[k] == EMPTY_ENTRY
        decreases |archive| - temp
      {
        assert offs[i] == offs[i..][0] == temp;
        ghost var was := fs[..];
        EarlierNames(archive, base, was, i);
        assert fs[..i] == was[..i];
        assert ArchiveNames(archive)[i] == NameAt(archive, temp);
        temp := AddEntry(i, temp);
        PrefixGrows(archive, base, offs, was, fs[..], i);
        assert forall k :: i < k < 100 ==> fs[..][k] == was[k];
        assert offs[i + 1..] == offs[i..][1..];
        i := i + 1;
      }
      NoName(archive, temp);
      assert offs[i..] == [];
    }

    /** The raw scan ends on every name: over the closing zeros its stride is a gigabyte. */
    method GetElfHeader(fileName: string) returns (r: int)
      requires WellFormed(archive, 0)
      ensures r == ElfResult(archive, base, fileName)
    {
      hide WellFormed, Scanning, ScanStride, SizeAt;
      ScanStarts(archive, fileName);
      var address := base;
      while address < base + |archive|
        invariant address >= base && Scanning(archive, fileName, address - base)
        decreases base + |archive| - address
      {
        ghost var off := address - base;
        ScanNext(archive, fileName, off);
        SizeIs(archive, off);
        StrideIs(SizeAt(archive, off) % U32);
        assert archive[off + 124..off + 135][..11] == SizeDigits(archive, off);
        var size := GetSize(archive[address - base + 124..address - base + 135]);
        if NameAt(archive, address - base) == fileName {
          return address + 512;
        }
        address := address + (size / 512 + 1) * 512 % U32;
        if size % 512 != 0 {
          address := address + 512;
        }
        assert address == base + off + ScanStride(size);
      }
      ScanEnds(archive, fileName, address - base);
      r := 0;
    }

    method OpenFile(file: string) returns (r: nat)
      requires fs.Length == 100 && exists k :: 0 <= k < 100 && fs[k].name == ""
      ensures r == OpenResult(fs[..], file)
    {
      var i := 0;
      ghost var end :| 0 <= end < 100 && fs[end].name == "";
      while true
        invariant i <= end && FindFile(fs[..], file, i) == FindFile(fs[..], file, 0)
        decreases end - i
      {
        var e := fs[i];
        i := i + 1;
        if e.name == "" { break; }
        if e.name == file && e.typeflag == FILE_TYPE {
          return e.addr;
        }
      }
      r := 0;
    }

    /** readfile: the bytes and a NUL go to the front of the buffer. What it returns is what its
        counter ends at, one below 0, or below a negative request, whatever was read. */
    method ReadFile(fileAddr: nat, request: int, buf: array<char>) returns (r: int)
      requires FileAt(archive, base, fileAddr) && -0x8000_0000 < request < 0x8000_0000
      requires |Served(archive, base, fileAddr, request)| < buf.Length
      modifies buf
      ensures var bytes := Served(archive, base, fileAddr, request);
        buf[..] == bytes + "\0" + old(buf[|bytes| + 1..])
      ensures r == if request >= 0 then -1 else request - 1
    {
      hide HeaderOk, SizeAt, Served, FileAt, OctalField, IsOctal, SizeDigits;
      ghost var bytes, was := Served(archive, base, fileAddr, request), buf[..];
      var size, start := request, fileAddr - base + 512;
      ServedIs(archive, base, fileAddr, request);
      var fileSize := ReadSize(archive, fileAddr - base);
      if fileSize < size {
        size := fileSize;
      }
      var i := 0;
      while size > 0
        invariant 0 <= i <= |bytes| && (size == |bytes| - i || (size < 0 && size == request && bytes == ""))
        invariant forall j :: 0 <= j < i ==> buf[j] == bytes[j]
        invariant forall j :: i <= j < buf.Length ==> buf[j] == was[j]
      {
        buf[i] := archive[start + i];
        i, size := i + 1, size - 1;
      }
      size := size - 1;
      buf[i] := '\0';
      r := size;
    }

    /** readdirect, returning what it prints. */
    method ReadDirect(direct: string) returns (printed: seq<string>)
      requires fs.Length == 100 && exists k :: 0 <= k < 100 && fs[k].name == ""
      ensures printed == Printed(fs[..], direct)
      ensures direct == "" ==> printed == ["bin/   etc/  boot/   lib/   usr/"]
    {
      if |direct| == 0 {
        return [ROOTS];
      }
      var i, parent := 0, -1;
      printed := [];
      ghost var end :| 0 <= end < 100 && fs[end].name == "";
      while true
        invariant i <= end && printed + Listing(fs[..], direct, i, parent) == Listing(fs[..], direct, 0, -1)
        decreases end - i
      {
        var e := fs[i];
        if e.name == "" { break; }
        if e.name == direct {
          parent := i;
          i := i + 1;
          continue;
        }
        if direct <= e.name && e.parInd == parent {
          printed := printed + [e.name[|direct|..]];
        }
        i := i + 1;
      }
    }
  }

  lemma ServedIs(a: string, base: nat, addr: nat, size: int)
    requires FileAt(a, base, addr)
    ensures base <= addr && HeaderOk(a, addr - base)
    ensures addr - base + 512 <= |a| && IsOctal(SizeDigits(a, addr - base)) && !IsDigit(a[addr - base + 135])
    ensures var n, bytes := SizeAt(a, addr - base), Served(a, base, addr, size);
      && |bytes| == (if size < 0 then 0 else if size < n then size else n)
      && addr - base + 512 + |bytes| <= |a|
      && forall i :: 0 <= i < |bytes| ==> bytes[i] == a[addr - base + 512 + i]
  {
    hide HeaderOk, SizeAt;
    HeaderRoom(a, addr - base);
  }

  lemma HeaderRoom(a: string, off: nat)
    requires HeaderOk(a, off)
    ensures off + 512 <= |a| && IsOctal(SizeDigits(a, off)) && !IsDigit(a[off + 135])
  {
  }

  lemma FoundIn(names: seq<string>, name: string)
    requires name in names
    ensures IndexOfName(names, name, 0) < |names|
  {
  }

  lemma NoName(a: string, off: nat)
    requires WellFormed(a, off)
    ensures NameAt(a, off) == "" <==> a[off] == '\0'
  {
  }

  lemma ScanStarts(a: string, file: string)
    requires WellFormed(a, 0)
    ensures Scanning(a, file, 0)
  {
  }

  lemma ScanEnds(a: string, file: string, off: nat)
    requires WellFormed(a, 0) && Scanning(a, file, off) && off >= |a|
    ensures Scan(a, 0, file) == NOT_FOUND
  {
  }

  lemma StrideIs(size: nat)
    ensures ScanStride(size) == (size / 512 + 1) * 512 % U32 + if size % 512 != 0 then 512 else 0
  {
  }

  // ---- The index against the scan ----------------------------------------------------------

  lemma {:induction false} ScanIsFirst(a: string, off: nat, names: seq<string>, file: string)
    requires WellFormed(a, off) && |names| == |Offsets(a, off)|
    requires forall k :: 0 <= k < |names| ==> Offsets(a, off)[k] <= |a| && names[k] == NameAt(a, Offsets(a, off)[k])
    ensures var i := IndexOfName(names, file, 0);
      Scan(a, off, file) ==
        if i < |names| then Offsets(a, off)[i] else if file == "" then EndOffset(a, off) else NOT_FOUND
    decreases |a| - off
  {
    NoName(a, off);
    if a[off] != '\0' {
      var next := NextOffset(a, off);
      assert Offsets(a, off)[1..] == Offsets(a, next);
      assert names[0] == NameAt(a, off);
      forall k | 0 <= k < |names[1..]|
        ensures Offsets(a, next)[k] <= |a| && names[1..][k] == NameAt(a, Offsets(a, next)[k])
      {
        assert names[1..][k] == names[k + 1] && Offsets(a, next)[k] == Offsets(a, off)[k + 1];
      }
      ScanIsFirst(a, next, names[1..], file);
      if names[0] != file { FirstOfTail(names, file); }
    }
  }

  lemma FirstOfTail(names: seq<string>, file: string)
    requires names != [] && names[0] != file
    ensures IndexOfName(names, file, 0) == 1 + IndexOfName(names[1..], file, 0)
  {
    var i, j := IndexOfName(names, file, 0), IndexOfName(names[1..], file, 0);
    assert i > 0;
    if j < |names| - 1 { assert names[1..][j] == names[j + 1]; }
    if i < |names| { assert names[i] == names[1..][i - 1]; }
  }

  /** The two lookups give the same answer: both nothing, or the contents right after the header. */
  predicate Agree(addr: nat, elf: int) {
    if addr == 0 then elf == 0 else elf == addr + 512
  }

  /** Where openfile's search stands to the first entry of that name. */
  lemma FindFileFrom(fs: seq<TarEntry>, names: seq<string>, file: string)
    requires |names| < |fs| && forall k :: 0 <= k < |names| ==> fs[k].name == names[k] != ""
    requires forall k :: |names| <= k < |fs| ==> fs[k].name == ""
    ensures var first, r := IndexOfName(names, file, 0), FindFile(fs, file, 0);
      && (first == |names| ==> r == NOT_FOUND)
      && (first < |names| && fs[first].typeflag == FILE_TYPE ==> r == first)
      && (first < |names| && fs[first].typeflag != FILE_TYPE ==> r == NOT_FOUND || first < r < |names|)
      && (r != NOT_FOUND ==> 0 <= r < |names| && fs[r].typeflag == FILE_TYPE)
  {
    var first := IndexOfName(names, file, 0);
    FindFileIs(fs, file, 0);
    if first < |names| && fs[first].typeflag == FILE_TYPE {
      FindFileReaches(fs, file, 0, first);
    }
    hide FindFile, IndexOfName;
  }

  /** getElfHeader finds the first header of that name. */
  lemma ElfResultIs(a: string, base: nat, file: string)
    requires WellFormed(a, 0)
    ensures var first := IndexOfName(ArchiveNames(a), file, 0);
      ElfResult(a, base, file) ==
        if first < |ArchiveNames(a)| then base + Offsets(a, 0)[first] + 512
        else if file == "" then base + EndOffset(a, 0) + 512 else 0
  {
    AllOffsetsOk(a);
    ScanIsFirst(a, 0, ArchiveNames(a), file);
  }

  /** Exactly which names the scan and the index agree on: those whose first header, if there is one,
      is a regular file. A directory's name is found by the scan alone, and so is the empty name,
      in the closing zero block. */
  lemma LookupsAgreeIff(a: string, base: nat, fs: seq<TarEntry>, file: string)
    requires IndexOf(a, base, fs) && base > 0
    ensures var first := IndexOfName(ArchiveNames(a), file, 0);
      Agree(OpenResult(fs, file), ElfResult(a, base, file)) <==>
        file != "" && (first == |ArchiveNames(a)| || fs[first].typeflag == FILE_TYPE)
  {
    hide Scan, FindFile, IndexOfName, EndOffset, ElfResult, Prefix, IsEntry, NameAt, HeaderOk;
    var names, found := ArchiveNames(a), FindFile(fs, file, 0);
    var first := IndexOfName(names, file, 0);
    IndexNames(a, base, fs);
    ElfResultIs(a, base, file);
    hide WellFormed, Offsets, IndexOf, ArchiveNames, TypeAt;
    FindFileFrom(fs, names, file);
    assert OpenResult(fs, file) == if found == NOT_FOUND then 0 else fs[found].addr;
    hide OpenResult;
    if first < |names| {
      assert EntryFor(a, base, first, fs[first]);
      if found != NOT_FOUND {
        assert EntryFor(a, base, found, fs[found]);
      }
    }
  }

  /** What the two lookups give when no name is listed twice. */
  lemma UniqueLookups(a: string, base: nat, fs: seq<TarEntry>, file: string)
    requires IndexOf(a, base, fs)
    requires forall j, k :: 0 <= j < k < |ArchiveNames(a)| ==> ArchiveNames(a)[j] != ArchiveNames(a)[k]
    ensures file == "" ==> OpenResult(fs, file) == 0 && ElfResult(a, base, file) == base + EndOffset(a, 0) + 512
    ensures file != "" && file !in ArchiveNames(a) ==> OpenResult(fs, file) == ElfResult(a, base, file) == 0
    ensures forall k :: 0 <= k < |Offsets(a, 0)| && file == ArchiveNames(a)[k] ==>
      && OpenResult(fs, file) == (if fs[k].typeflag == FILE_TYPE then base + Offsets(a, 0)[k] else 0)
      && ElfResult(a, base, file) == base + Offsets(a, 0)[k] + 512
  {
    hide Scan, FindFile, IndexOfName, EndOffset, ElfResult, Prefix, IsEntry, NameAt, HeaderOk;
    var names, found := ArchiveNames(a), FindFile(fs, file, 0);
    var first := IndexOfName(names, file, 0);
    IndexNames(a, base, fs);
    ElfResultIs(a, base, file);
    hide WellFormed, Offsets, IndexOf, ArchiveNames, TypeAt;
    FindFileFrom(fs, names, file);
    assert OpenResult(fs, file) == if found == NOT_FOUND then 0 else fs[found].addr;
    FindFileIs(fs, file, 0);
    hide OpenResult;
    forall k | 0 <= k < |names| && file == names[k] ensures k == first && EntryFor(a, base, k, fs[k]) {
    }
    if found != NOT_FOUND {
      assert names[found] == file;
    }
  }

  /** Lookups by name: a file's address, and the archive's own header there. */
  lemma OpenFindsHeader(a: string, base: nat, fs: seq<TarEntry>, file: string)
    requires IndexOf(a, base, fs) && base > 0
    ensures var r := OpenResult(fs, file);
      r != 0 ==>
        && r >= base && (r - base) in Offsets(a, 0) && HeaderOk(a, r - base)
        && NameAt(a, r - base) == file && TypeAt(a, r - base) == FILE_TYPE
  {
    hide FindFile, WellFormed, Offsets;
    FindFileIs(fs, file, 0);
    var k := FindFile(fs, file, 0);
    if k != NOT_FOUND {
      hide NameAt, TypeAt, HeaderOk, Linked;
      assert k < |Offsets(a, 0)|;
      assert IsEntry(a, base, fs[..k], Offsets(a, 0)[k], fs[k]);
    }
  }

  predicate EntryFor(a: string, base: nat, k: nat, e: TarEntry)
    requires WellFormed(a, 0) && k < |Offsets(a, 0)|
  {
    && e.name == ArchiveNames(a)[k] != "" && e.addr == base + Offsets(a, 0)[k]
    && Offsets(a, 0)[k] + 512 <= |a| && e.typeflag == TypeAt(a, Offsets(a, 0)[k])
  }

  lemma IndexNames(a: string, base: nat, fs: seq<TarEntry>)
    requires IndexOf(a, base, fs)
    ensures |ArchiveNames(a)| < |fs| && forall k :: |ArchiveNames(a)| <= k < |fs| ==> fs[k].name == ""
    ensures forall k :: 0 <= k < |ArchiveNames(a)| ==>
      EntryFor(a, base, k, fs[k])
  {
    forall k | 0 <= k < |ArchiveNames(a)|
      ensures EntryFor(a, base, k, fs[k])
    {
      assert IsEntry(a, base, fs[..k], Offsets(a, 0)[k], fs[k]);
    }
  }
}
