/** Archives as a tar writer lays them out (section "ustar Interchange Format" of the pax utility,
    IEEE Std 1003.1-2017), and that sys/tarfs.c finds in them what was put in. */
module Ustar {
  import opened Octal
  import opened Archive
  import Tarfs

  /** What is archived; `owner`, `stamp` and `rest` are the header fields that sys/tarfs.c never reads. */
  datatype Member = Member(name: string, contents: string, flag: char, owner: string, stamp: string, rest: string)

  /** A name that leaves room for its NUL, a size below 0o2147500000, fields of the standard widths,
      and no digit right after the type flag. */
  predicate Storable(m: Member) {
    && 0 < |m.name| < 100 && '\0' !in m.name && |m.contents| < 295600128
    && |m.owner| == 24 && |m.stamp| == 20 && |m.rest| == 355 && !('0' <= m.rest[0] <= '9')
  }

  function Zeros(n: nat): (s: string)
    ensures |s| == n && forall i :: 0 <= i < n ==> s[i] == '\0'
  {
    if n == 0 then "" else Zeros(n - 1) + "\0"
  }

  /** Name, owner, size, stamp, type flag, rest: 100 + 24 + 12 + 20 + 1 + 355 bytes. */
  function Header(m: Member): (s: string)
    requires Storable(m)
    ensures |s| == 512
  {
    m.name + Zeros(100 - |m.name|) + m.owner + OctalField(|m.contents|, 11) + "\0" + m.stamp + [m.flag] + m.rest
  }

  /** Filled up to whole blocks. */
  function Padded(contents: string): (s: string)
    ensures |s| % 512 == 0 && |contents| <= |s| < |contents| + 512
  {
    contents + Zeros((512 - |contents| % 512) % 512)
  }

  /** The whole archive, closed by two zero blocks. */
  function Written(ms: seq<Member>): string
    requires AllStorable(ms)
  {
    if ms == [] then Zeros(1024) else Header(ms[0]) + Padded(ms[0].contents) + Written(ms[1..])
  }

  predicate AllStorable(ms: seq<Member>) {
    forall m :: m in ms ==> Storable(m)
  }

  lemma {:induction false} WrittenLength(ms: seq<Member>)
    requires AllStorable(ms)
    ensures |Written(ms)| % 512 == 0 && |Written(ms)| >= 1024
  {
    hide Storable, Header, Padded;
    if ms != [] {
      WrittenLength(ms[1..]);
      Multiples(|Padded(ms[0].contents)|, |Written(ms[1..])|);
    }
  }

  lemma Multiples(x: nat, y: nat)
    requires x % 512 == 0 && y % 512 == 0
    ensures (512 + x + y) % 512 == 0
  {
  }

  /** At `off` stands a header with this name, size and type flag, and the contents follow it. */
  predicate Holds(a: string, off: nat, m: Member) {
    && off + 512 + |m.contents| <= |a|
    && NameAt(a, off) == m.name && SizeAt(a, off) == |m.contents|
    && (m.flag == '0' || m.flag == '\0' ==> TypeAt(a, off) == 0)
    && (m.flag == '5' ==> TypeAt(a, off) == 5)
    && a[off + 512..off + 512 + |m.contents|] == m.contents
  }

  /** Where the fields stand. */
  lemma HeaderFields(m: Member)
    requires Storable(m)
    ensures Header(m)[..|m.name|] == m.name && Header(m)[|m.name|] == '\0'
    ensures Header(m)[124..135] == OctalField(|m.contents|, 11) && Header(m)[135] == '\0'
    ensures Header(m)[156] == m.flag && Header(m)[157] == m.rest[0]
  {
    var name, size := m.name + Zeros(100 - |m.name|), OctalField(|m.contents|, 11);
    var tail := "\0" + m.stamp + [m.flag] + m.rest;
    assert Header(m) == (name + m.owner) + (size + tail);
    assert Header(m)[124..135] == size;
    assert Header(m)[135] == tail[0] && Header(m)[156] == tail[21] && Header(m)[157] == tail[22];
    assert Header(m)[..|m.name|] == m.name;
    assert Header(m)[|m.name|] == Zeros(100 - |m.name|)[0];
  }

  lemma NameIs(a: string, off: nat, name: string)
    requires off + |name| < |a| && a[off..off + |name|] == name && '\0' !in name && a[off + |name|] == '\0'
    ensures StrEnd(a, off) == off + |name| && NameAt(a, off) == name
  {
    var e := StrEnd(a, off);
    assert forall i :: off <= i < off + |name| ==> a[i] == a[off..off + |name|][i - off];
  }

  /** A header that a tar writer made is one that both walkers can read, and reads as what it was
      made from. */
  lemma HeaderReads(a: string, off: nat, m: Member)
    requires Storable(m) && off + 512 + |m.contents| <= |a|
    requires a[off..off + 512] == Header(m) && a[off + 512..off + 512 + |m.contents|] == m.contents
    ensures a[off] != '\0' && HeaderOk(a, off) && Holds(a, off, m)
  {
    var h := Header(m);
    HeaderFields(m);
    hide Header, OctalField, Value, Zeros, Storable, StrEnd;
    forall i | 0 <= i < 512 ensures a[off + i] == h[i] {
      assert a[off..off + 512][i] == h[i];
    }
    assert a[off..off + |m.name|] == h[..|m.name|];
    assert a[off + 124..off + 135] == h[124..135];
    NameIs(a, off, m.name);
    Tarfs.WrittenSize(a, off, |m.contents|);
    assert a[off] == m.name[0];
  }

  lemma StrideIsPadding(contents: string)
    ensures Stride(|contents|) == 512 + |Padded(contents)|
  {
    var q, r := |contents| / 512, |contents| % 512;
    assert (|contents| + 511) / 512 == if r == 0 then q else q + 1;
  }

  /** What a walk from `off` finds. */
  ghost predicate Finds(a: string, off: nat, ms: seq<Member>) {
    && WellFormed(a, off) && |Offsets(a, off)| == |ms|
    && forall k :: 0 <= k < |ms| ==> Holds(a, Offsets(a, off)[k], ms[k])
  }

  lemma {:induction false} FindsWritten(a: string, off: nat, ms: seq<Member>)
    requires AllStorable(ms)
    requires off % 512 == 0 && off <= |a| < 0x8000_0000 && a[off..] == Written(ms)
    ensures Finds(a, off, ms)
    decreases |ms|
  {
    hide Header, Padded, Storable, HeaderOk, Holds, Finds, NextOffset, SizeAt, Stride;
    WrittenLength(ms);
    Multiples(|a[off..]|, off);
    if ms == [] {
      FindsNothing(a, off);
    } else {
      var m, padded, rest := ms[0], Padded(ms[0].contents), Written(ms[1..]);
      PiecesOf(a, off, Header(m), padded, rest);
      FirstReads(a, off, m);
      Multiples(off, |padded|);
      FindsWritten(a, off + 512 + |padded|, ms[1..]);
      FindsFirst(a, off, ms);
    }
  }

  lemma FindsNothing(a: string, off: nat)
    requires off % 512 == 0 && |a| % 512 == 0 && off <= |a| < 0x8000_0000 && a[off..] == Zeros(1024)
    ensures Finds(a, off, [])
  {
    forall i | off <= i < |a| ensures a[i] == '\0' {
      assert a[i] == a[off..][i - off];
    }
  }

  lemma FirstReads(a: string, off: nat, m: Member)
    requires Storable(m) && off + 512 + |Padded(m.contents)| <= |a|
    requires a[off..off + 512] == Header(m)
    requires a[off + 512..off + 512 + |Padded(m.contents)|] == Padded(m.contents)
    ensures a[off] != '\0' && HeaderOk(a, off) && Holds(a, off, m)
    ensures NextOffset(a, off) == off + 512 + |Padded(m.contents)|
  {
    var padded, n := Padded(m.contents), |m.contents|;
    assert a[off + 512..off + 512 + n] == a[off + 512..off + 512 + |padded|][..n] == padded[..n] == m.contents;
    HeaderReads(a, off, m);
    StrideIsPadding(m.contents);
    hide Padded, Header, Stride, Storable;
  }

  lemma PiecesOf(a: string, off: nat, h: string, padded: string, rest: string)
    requires off <= |a| && a[off..] == h + padded + rest && |h| == 512
    ensures off + 512 + |padded| <= |a|
    ensures a[off..off + 512] == h && a[off + 512..off + 512 + |padded|] == padded
    ensures a[off + 512 + |padded|..] == rest
  {
  }

  lemma FindsFirst(a: string, off: nat, ms: seq<Member>)
    requires ms != [] && off % 512 == 0 && |a| % 512 == 0 && |a| < 0x8000_0000
    requires HeaderOk(a, off) && a[off] != '\0' && Holds(a, off, ms[0])
    requires Finds(a, NextOffset(a, off), ms[1..])
    ensures Finds(a, off, ms)
  {
    hide HeaderOk, Holds, NextOffset;
    var next := NextOffset(a, off);
    assert Offsets(a, off) == [off] + Offsets(a, next);
    forall k | 0 <= k < |ms| ensures Holds(a, Offsets(a, off)[k], ms[k]) {
      if k > 0 { assert Holds(a, Offsets(a, next)[k - 1], ms[1..][k - 1]); }
    }
  }

  /** Every archive of fewer than 2 GiB that a tar writer makes is one that tarfs_init and getElfHeader
      can walk, with the headers, in order, of what was archived. */
  lemma WrittenIsWellFormed(ms: seq<Member>)
    requires AllStorable(ms) && |Written(ms)| < 0x8000_0000
    ensures Finds(Written(ms), 0, ms)
  {
    hide Storable, Written, Finds;
    assert Written(ms)[0..] == Written(ms);
    FindsWritten(Written(ms), 0, ms);
  }

  /** The entry for a member: its name, the length of its contents, its kind, and the address of its
      header, which the contents follow. */
  predicate EntryOf(a: string, base: nat, e: TarEntry, m: Member) {
    && e.name == m.name && e.size == |m.contents|
    && (m.flag == '0' || m.flag == '\0' ==> e.typeflag == 0) && (m.flag == '5' ==> e.typeflag == 5)
    && ContentsAt(a, base, e.addr + 512, m)
  }

  predicate ContentsAt(a: string, base: nat, address: nat, m: Member) {
    && base <= address && address - base + |m.contents| <= |a|
    && a[address - base..address - base + |m.contents|] == m.contents
  }

  /** The index that tarfs_init builds has one entry for each member, in order, and no more. */
  lemma IndexHoldsMembers(ms: seq<Member>, base: nat, fs: seq<TarEntry>)
    requires AllStorable(ms) && |Written(ms)| < 0x8000_0000 && Tarfs.IndexOf(Written(ms), base, fs)
    ensures |ms| < |fs| && forall k :: 0 <= k < |ms| ==> EntryOf(Written(ms), base, fs[k], ms[k])
    ensures forall k :: |ms| <= k < |fs| ==> fs[k].name == ""
  {
    hide Storable, Written, Offsets, WellFormed, HeaderOk, NameAt, SizeAt, TypeAt;
    WrittenIsWellFormed(ms);
    var a := Written(ms);
    forall k | 0 <= k < |ms| ensures EntryOf(a, base, fs[k], ms[k]) {
      assert Tarfs.IsEntry(a, base, fs[..k], Offsets(a, 0)[k], fs[k]);
      assert Holds(a, Offsets(a, 0)[k], ms[k]);
    }
  }

  lemma NamesAreMembers(ms: seq<Member>)
    requires AllStorable(ms) && |Written(ms)| < 0x8000_0000
    ensures Finds(Written(ms), 0, ms) && |Tarfs.ArchiveNames(Written(ms))| == |ms|
    ensures forall k :: 0 <= k < |ms| ==> Tarfs.ArchiveNames(Written(ms))[k] == ms[k].name
  {
    hide Storable, Written, Offsets, WellFormed, HeaderOk, NameAt, SizeAt, TypeAt;
    WrittenIsWellFormed(ms);
    var a := Written(ms);
    Tarfs.AllOffsetsOk(a);
    forall k | 0 <= k < |ms| ensures Tarfs.ArchiveNames(a)[k] == ms[k].name {
      assert Holds(a, Offsets(a, 0)[k], ms[k]);
    }
  }

  /** Names put in once are looked up right: getElfHeader returns the address at which the contents
      stand, openfile for a file the address of the header before them, and names not put in are
      not found by either. */
  lemma LookupsFindContents(ms: seq<Member>, base: nat, fs: seq<TarEntry>, name: string)
    requires AllStorable(ms) && |Written(ms)| < 0x8000_0000 && Tarfs.IndexOf(Written(ms), base, fs)
    requires forall j, k :: 0 <= j < k < |ms| ==> ms[j].name != ms[k].name
    ensures forall k :: 0 <= k < |ms| && ms[k].name == name ==>
      && var r := Tarfs.ElfResult(Written(ms), base, name);
         && r >= 512 && ContentsAt(Written(ms), base, r, ms[k])
         && (ms[k].flag == '0' || ms[k].flag == '\0' ==> Tarfs.OpenResult(fs, name) == r - 512)
    ensures name != "" && (forall k :: 0 <= k < |ms| ==> ms[k].name != name) ==>
      Tarfs.OpenResult(fs, name) == Tarfs.ElfResult(Written(ms), base, name) == 0
  {
    hide AllStorable, Written, Tarfs.IndexOf, Tarfs.OpenResult, Tarfs.ElfResult, Tarfs.ArchiveNames, EndOffset;
    hide WellFormed, Offsets, HeaderOk, NameAt, SizeAt, TypeAt;
    var a := Written(ms);
    NamesAreMembers(ms);
    IndexHoldsMembers(ms, base, fs);
    Tarfs.UniqueLookups(a, base, fs, name);
    forall k | 0 <= k < |ms| && ms[k].name == name
      ensures Tarfs.ElfResult(a, base, name) >= 512 && ContentsAt(a, base, Tarfs.ElfResult(a, base, name), ms[k])
      ensures ms[k].flag == '0' || ms[k].flag == '\0' ==>
        Tarfs.OpenResult(fs, name) == Tarfs.ElfResult(a, base, name) - 512
    {
      assert Holds(a, Offsets(a, 0)[k], ms[k]) && EntryOf(a, base, fs[k], ms[k]);
      assert Tarfs.ArchiveNames(a)[k] == name;
    }
  }

  /** A file opened by name and read gives back, byte by byte, what was archived under that name, as
      far as it was asked for. */
  lemma FilesReadBack(ms: seq<Member>, base: nat, fs: seq<TarEntry>, k: nat, request: int)
    requires AllStorable(ms) && |Written(ms)| < 0x8000_0000 && Tarfs.IndexOf(Written(ms), base, fs)
    requires forall i, j :: 0 <= i < j < |ms| ==> ms[i].name != ms[j].name
    requires k < |ms| && (ms[k].flag == '0' || ms[k].flag == '\0')
    ensures var addr, contents := Tarfs.OpenResult(fs, ms[k].name), ms[k].contents;
      && Tarfs.FileAt(Written(ms), base, addr)
      && Tarfs.Served(Written(ms), base, addr, request)
         == contents[..if request < 0 then 0 else if request < |contents| then request else |contents|]
  {
    hide AllStorable, Written, Tarfs.IndexOf, Tarfs.OpenResult, Tarfs.ElfResult, Tarfs.ArchiveNames, EndOffset;
    hide WellFormed, Offsets, HeaderOk, NameAt, SizeAt, TypeAt;
    var a, name := Written(ms), ms[k].name;
    NamesAreMembers(ms);
    Tarfs.UniqueLookups(a, base, fs, name);
    IndexHoldsMembers(ms, base, fs);
    var off := Offsets(a, 0)[k];
    assert Tarfs.ArchiveNames(a)[k] == name && EntryOf(a, base, fs[k], ms[k]) && Holds(a, off, ms[k]);
    Tarfs.AllOffsetsOk(a);
    assert HeaderOk(a, off);
    Prefixes(a[off + 512..off + 512 + |ms[k].contents|], a, off + 512, request);
  }

  lemma Prefixes(bytes: string, a: string, start: nat, request: int)
    requires start + |bytes| <= |a| && a[start..start + |bytes|] == bytes
    ensures var n := if request < 0 then 0 else if request < |bytes| then request else |bytes|;
      a[start..start + n] == bytes[..n]
  {
  }
}
