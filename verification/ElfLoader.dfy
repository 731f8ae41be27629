/** The ELF32 loader: from a program header table to a memory image, in the flat 32-bit address space where
    the file buffer itself lies.  Addresses wrap at 2^32, as the code's unsigned sums do. */
module ElfLoader {
  import opened Memory

  const EHDR_SIZE := 52
  const PHDR_SIZE := 32
  const PT_LOAD := 1
  const EM_386 := 3
  const ET_EXEC := 2
  const NO_SEGMENT := 0xFFFF_FFFF

  // ---------------------------------------------------------------- reading memory

  /** A sum as the hardware keeps it. */
  function Wrap(a: nat): (w: uint32) {
    if a < TWO32 then a else Wrap(a - TWO32)
  }

  lemma {:induction false} WrapIsRemainder(a: nat)
    ensures Wrap(a) == a % TWO32
  {
    if a >= TWO32 {
      WrapIsRemainder(a - TWO32);
      assert a % TWO32 == (a - TWO32) % TWO32;
    }
  }

  function At(m: seq<byte>, a: nat): (b: byte)
    requires |m| == TWO32
  {
    m[Wrap(a)]
  }

  function HalfAt(m: seq<byte>, a: nat): (h: nat)
    requires |m| == TWO32
    ensures h < 0x1_0000
  {
    At(m, a) as int + 0x100 * (At(m, a + 1) as int)
  }

  function WordAt(m: seq<byte>, a: nat): (w: uint32)
    requires |m| == TWO32
  {
    if a + 4 <= TWO32 then LoadWord(m, a) else HalfAt(m, a) + 0x1_0000 * HalfAt(m, a + 2)
  }

  /** The fields of Elf32_Ehdr that the loader uses. */
  datatype Ehdr =
    Ehdr(ident: seq<byte>, typ: nat, machine: nat, entry: uint32, phoff: uint32, phentsize: nat, phnum: nat)

  function EhdrAt(m: seq<byte>, buf: nat): (e: Ehdr)
    requires |m| == TWO32
    ensures |e.ident| == 6 && e.phentsize < 0x1_0000 && e.phnum < 0x1_0000
  {
    Ehdr([At(m, buf), At(m, buf + 1), At(m, buf + 2), At(m, buf + 3), At(m, buf + 4), At(m, buf + 5)],
         HalfAt(m, buf + 16), HalfAt(m, buf + 18), WordAt(m, buf + 24), WordAt(m, buf + 28),
         HalfAt(m, buf + 42), HalfAt(m, buf + 44))
  }

  datatype Phdr = Phdr(typ: uint32, offset: uint32, vaddr: uint32, filesz: uint32, memsz: uint32) {
    predicate Load() { typ == PT_LOAD }
    function End(): nat { vaddr + memsz }
  }

  function PhdrAt(m: seq<byte>, a: nat): (p: Phdr)
    requires |m| == TWO32
  {
    Phdr(WordAt(m, a), WordAt(m, a + 4), WordAt(m, a + 8), WordAt(m, a + 16), WordAt(m, a + 20))
  }

  /** Entry i of the table as the code indexes it: entries of 32 bytes from e_phoff. */
  function EntryAddress(phoff: uint32, buf: nat, i: nat): (a: nat) {
    buf + phoff + PHDR_SIZE * i
  }

  ghost function Table(m: seq<byte>, buf: nat): (t: seq<Phdr>)
    requires |m| == TWO32
  {
    var e := EhdrAt(m, buf);
    seq(e.phnum, i requires 0 <= i => PhdrAt(m, EntryAddress(e.phoff, buf, i)))
  }

  // ---------------------------------------------------------------- what a good file is

  /** elf_check_header. */
  predicate HeaderOk(e: Ehdr)
    requires |e.ident| == 6
  {
    && e.ident == [0x7F, 0x45, 0x4C, 0x46, 1, 1]     // magic, 32-bit, little-endian
    && e.machine == EM_386 && e.typ == ET_EXEC
    && e.phoff != 0 && e.phnum != 0
  }

  predicate SegmentOk(p: Phdr, size: uint32) {
    Wrap(p.offset + p.filesz) <= size && p.filesz <= p.memsz
  }

  /** The first PT_LOAD entry that is refused, or the length of the table. */
  function FirstBad(t: seq<Phdr>, size: uint32): (n: nat)
    ensures n <= |t|
    ensures n < |t| ==> t[n].Load() && !SegmentOk(t[n], size)
    ensures forall i :: 0 <= i < n && t[i].Load() ==> SegmentOk(t[i], size)
  {
    if t == [] || (t[0].Load() && !SegmentOk(t[0], size)) then 0 else 1 + FirstBad(t[1..], size)
  }

  function Times(a: nat, b: nat): (n: nat) { a * b }

  /** The checks before the loop: the header, and that the table ends inside the file. */
  ghost predicate Admitted(m: seq<byte>, buf: nat, size: uint32)
    requires |m| == TWO32
  {
    var e := EhdrAt(m, buf);
    EHDR_SIZE <= size && HeaderOk(e) && Wrap(e.phoff + Times(e.phnum, e.phentsize)) <= size
  }

  /** The file is accepted: header, table and every PT_LOAD segment pass, and there is one. */
  ghost predicate Loadable(m: seq<byte>, buf: nat, size: uint32)
    requires |m| == TWO32
  {
    var t := Table(m, buf);
    && Admitted(m, buf, size)
    && (forall i :: 0 <= i < |t| && t[i].Load() ==> SegmentOk(t[i], size))
    && (exists i :: 0 <= i < |t| && t[i].Load())
  }

  /** No sum wraps, entries are 32 bytes, and the targets of PT_LOAD segments lie apart from the file buffer
      and from one another. */
  ghost predicate Tame(m: seq<byte>, buf: nat, size: uint32)
    requires |m| == TWO32
  {
    var e, t := EhdrAt(m, buf), Table(m, buf);
    && buf + size <= TWO32
    && e.phentsize == PHDR_SIZE && e.phoff + Times(e.phnum, e.phentsize) < TWO32
    && SegmentsTame(t, buf, size)
  }

  ghost predicate SegmentsTame(t: seq<Phdr>, buf: nat, size: uint32) {
    && (forall i :: 0 <= i < |t| && t[i].Load() ==>
         && t[i].offset + t[i].filesz < TWO32 && t[i].End() < TWO32
         && (t[i].End() <= buf || buf + size <= t[i].vaddr))
    && (forall i, j :: 0 <= i < j < |t| && t[i].Load() && t[j].Load() ==>
         t[i].End() <= t[j].vaddr || t[j].End() <= t[i].vaddr)
  }

  // ---------------------------------------------------------------- what the checks are worth

  /** The n bytes of the file from offset a lie in the buffer. */
  predicate InFile(a: nat, n: nat, size: nat) { n == 0 || a + n <= size }

  /** A file with this header and table: the header, every entry and the file bytes of every segment lie in
      the buffer. */
  ghost predicate ReadsInside(e: Ehdr, t: seq<Phdr>, size: uint32) {
    && InFile(0, EHDR_SIZE, size)
    && (forall i :: 0 <= i < |t| ==> InFile(EntryAddress(e.phoff, 0, i), PHDR_SIZE, size))
    && (forall i :: 0 <= i < |t| && t[i].Load() ==> InFile(t[i].offset, t[i].filesz, size))
  }

  /** All checks passed on the file in memory: the loader reads only inside the buffer exactly when the table,
      counted in entries of 32 bytes, ends in it, and no segment's sum of offset and size wraps. */
  lemma ReadsStayInside(m: seq<byte>, buf: nat, size: uint32)
    requires |m| == TWO32 && Admitted(m, buf, size) && FirstBad(Table(m, buf), size) == |Table(m, buf)|
    ensures var e, t := EhdrAt(m, buf), Table(m, buf);
      ReadsInside(e, t, size) <==> e.phoff + PHDR_SIZE * e.phnum <= size && NoSumWraps(t)
  {
    TableReads(EhdrAt(m, buf), Table(m, buf), size);
  }

  lemma TableReads(e: Ehdr, t: seq<Phdr>, size: uint32)
    requires EHDR_SIZE <= size && |t| == e.phnum > 0
    requires forall i :: 0 <= i < |t| && t[i].Load() ==> SegmentOk(t[i], size)
    ensures ReadsInside(e, t, size) <==> e.phoff + PHDR_SIZE * e.phnum <= size && NoSumWraps(t)
  {
    if ReadsInside(e, t, size) {
      assert InFile(EntryAddress(e.phoff, 0, |t| - 1), PHDR_SIZE, size);
      forall i | 0 <= i < |t| && t[i].Load() && t[i].filesz > 0 ensures t[i].offset + t[i].filesz < TWO32 {
        assert InFile(t[i].offset, t[i].filesz, size);
      }
    }
    if e.phoff + PHDR_SIZE * e.phnum <= size && NoSumWraps(t) {
      forall i | 0 <= i < |t| && t[i].Load() ensures InFile(t[i].offset, t[i].filesz, size) {
        assert SegmentOk(t[i], size);
      }
      forall i | 0 <= i < |t| ensures InFile(EntryAddress(e.phoff, 0, i), PHDR_SIZE, size) {
        assert PHDR_SIZE * i + PHDR_SIZE <= PHDR_SIZE * e.phnum;
      }
    }
  }

  ghost predicate NoSumWraps(t: seq<Phdr>) {
    forall i :: 0 <= i < |t| && t[i].Load() && t[i].filesz > 0 ==> t[i].offset + t[i].filesz < TWO32
  }

  /** The check of the table's end: with entries of 32 bytes it means that the table ends in the buffer exactly
      when the end does not wrap; with longer ones, if the end does not wrap. */
  lemma TableEnds(e: Ehdr, size: uint32)
    requires Wrap(e.phoff + Times(e.phnum, e.phentsize)) <= size
    ensures e.phentsize == PHDR_SIZE ==>
      (e.phoff + PHDR_SIZE * e.phnum <= size <==> e.phoff + PHDR_SIZE * e.phnum < TWO32)
    ensures e.phentsize >= PHDR_SIZE && e.phoff + Times(e.phnum, e.phentsize) < TWO32 ==>
      e.phoff + PHDR_SIZE * e.phnum <= size
  {
    if e.phentsize >= PHDR_SIZE { LongerEntries(e.phnum, e.phentsize); }
  }

  lemma {:induction false} LongerEntries(n: nat, entry: nat)
    requires entry >= PHDR_SIZE
    ensures PHDR_SIZE * n <= Times(n, entry)
    ensures entry == PHDR_SIZE ==> PHDR_SIZE * n == Times(n, entry)
  {
    if n > 0 {
      LongerEntries(n - 1, entry);
      assert Times(n, entry) == Times(n - 1, entry) + entry;
    }
  }

  // ---------------------------------------------------------------- files

  // Elf32_Ehdr and Elf32_Phdr as the System V ABI lays them out (gABI, chapter 4 "ELF Header" and chapter 5
  // "Program Header"), all fields little-endian and without padding.

  type uint16 = x: int | 0 <= x < 0x1_0000

  datatype FileHeader =
    FileHeader(ident: seq<byte>, typ: uint16, machine: uint16, version: uint32, entry: uint32, phoff: uint32,
               shoff: uint32, flags: uint32, ehsize: uint16, phentsize: uint16, phnum: uint16, shentsize: uint16,
               shnum: uint16, shstrndx: uint16)

  datatype ProgramHeader =
    ProgramHeader(typ: uint32, offset: uint32, vaddr: uint32, paddr: uint32, filesz: uint32, memsz: uint32,
                  flags: uint32, align: uint32)

  function HalfBytes(h: uint16): (s: seq<byte>)
    ensures |s| == 2
  {
    [h % 0x100, h / 0x100]
  }

  function WordBytes(w: uint32): (s: seq<byte>)
    ensures |s| == 4
  {
    [w % 0x100, w / 0x100 % 0x100, w / 0x1_0000 % 0x100, w / 0x100_0000]
  }

  /** The bytes at a, going round, are s. */
  ghost predicate BytesAt(m: seq<byte>, a: nat, s: seq<byte>)
    requires |m| == TWO32
  {
    forall i :: 0 <= i < |s| ==> At(m, a + i) == s[i]
  }

  lemma BytesAtParts(m: seq<byte>, a: nat, s: seq<byte>, t: seq<byte>)
    requires |m| == TWO32 && BytesAt(m, a, s + t)
    ensures BytesAt(m, a, s) && BytesAt(m, a + |s|, t)
  {
    forall i | 0 <= i < |s| ensures At(m, a + i) == s[i] { assert (s + t)[i] == s[i]; }
    forall i | 0 <= i < |t| ensures At(m, a + |s| + i) == t[i] {
      assert At(m, a + (|s| + i)) == (s + t)[|s| + i];
    }
  }

  /** A header of 52 bytes, field by field; the fields after e_phoff, and after e_phentsize, are apart. */
  function HeaderBytes(h: FileHeader): (s: seq<byte>) {
    h.ident + (HalfBytes(h.typ) + (HalfBytes(h.machine) + (WordBytes(h.version) + (WordBytes(h.entry)
      + (WordBytes(h.phoff) + HeaderTail(h))))))
  }

  function HeaderTail(h: FileHeader): (s: seq<byte>) {
    WordBytes(h.shoff) + (WordBytes(h.flags) + (HalfBytes(h.ehsize) + (HalfBytes(h.phentsize)
      + (HalfBytes(h.phnum) + (HalfBytes(h.shentsize) + (HalfBytes(h.shnum) + HalfBytes(h.shstrndx)))))))
  }

  /** An entry of 32 bytes, field by field. */
  function EntryBytes(p: ProgramHeader): (s: seq<byte>)
    ensures |s| == 32
  {
    WordBytes(p.typ) + (WordBytes(p.offset) + (WordBytes(p.vaddr) + (WordBytes(p.paddr)
      + (WordBytes(p.filesz) + (WordBytes(p.memsz) + (WordBytes(p.flags) + WordBytes(p.align)))))))
  }

  /** The header at buf and, from its e_phoff on, one entry of 32 bytes after the other. */
  ghost predicate FileHeld(m: seq<byte>, buf: nat, h: FileHeader, ps: seq<ProgramHeader>)
    requires |m| == TWO32
  {
    && |h.ident| == 16 && BytesAt(m, buf, HeaderBytes(h)) && |ps| == h.phnum
    && forall i :: 0 <= i < |ps| ==> BytesAt(m, buf + h.phoff + 32 * i, EntryBytes(ps[i]))
  }

  lemma HalfDecoded(m: seq<byte>, a: nat, h: uint16)
    requires |m| == TWO32 && BytesAt(m, a, HalfBytes(h))
    ensures HalfAt(m, a) == h
  {
    var s := HalfBytes(h);
    assert At(m, a + 0) == s[0] && At(m, a + 1) == s[1];
  }

  lemma WordDecoded(m: seq<byte>, a: nat, w: uint32)
    requires |m| == TWO32 && BytesAt(m, a, WordBytes(w))
    ensures WordAt(m, a) == w
  {
    var s := WordBytes(w);
    assert At(m, a + 0) == s[0] && At(m, a + 1) == s[1] && At(m, a + 2) == s[2] && At(m, a + 3) == s[3];
    Digits(w);
  }

  lemma WordThen(m: seq<byte>, a: nat, w: uint32, t: seq<byte>)
    requires |m| == TWO32 && BytesAt(m, a, WordBytes(w) + t)
    ensures WordAt(m, a) == w && BytesAt(m, a + 4, t)
  {
    BytesAtParts(m, a, WordBytes(w), t);
    WordDecoded(m, a, w);
  }

  lemma HalfThen(m: seq<byte>, a: nat, h: uint16, t: seq<byte>)
    requires |m| == TWO32 && BytesAt(m, a, HalfBytes(h) + t)
    ensures HalfAt(m, a) == h && BytesAt(m, a + 2, t)
  {
    BytesAtParts(m, a, HalfBytes(h), t);
    HalfDecoded(m, a, h);
  }

  /** Reading back a program header gives its fields. */
  lemma EntryDecoded(m: seq<byte>, a: nat, p: ProgramHeader)
    requires |m| == TWO32 && BytesAt(m, a, EntryBytes(p))
    ensures PhdrAt(m, a) == Phdr(p.typ, p.offset, p.vaddr, p.filesz, p.memsz)
  {
    var afterMemsz := WordBytes(p.flags) + WordBytes(p.align);
    var afterFilesz := WordBytes(p.memsz) + afterMemsz;
    var afterPaddr := WordBytes(p.filesz) + afterFilesz;
    var afterVaddr := WordBytes(p.paddr) + afterPaddr;
    var afterOffset := WordBytes(p.vaddr) + afterVaddr;
    var afterType := WordBytes(p.offset) + afterOffset;
    WordThen(m, a, p.typ, afterType);
    WordThen(m, a + 4, p.offset, afterOffset);
    WordThen(m, a + 8, p.vaddr, afterVaddr);
    WordThen(m, a + 12, p.paddr, afterPaddr);
    WordThen(m, a + 16, p.filesz, afterFilesz);
    WordThen(m, a + 20, p.memsz, afterMemsz);
  }

  lemma IdentDecoded(m: seq<byte>, a: nat, ident: seq<byte>)
    requires |m| == TWO32 && |ident| == 16 && BytesAt(m, a, ident)
    ensures EhdrAt(m, a).ident == ident[..6]
  {
    assert At(m, a + 0) == ident[0] && At(m, a + 1) == ident[1] && At(m, a + 2) == ident[2];
    assert At(m, a + 3) == ident[3] && At(m, a + 4) == ident[4] && At(m, a + 5) == ident[5];
  }

  lemma HeaderFrontDecoded(m: seq<byte>, a: nat, h: FileHeader)
    requires |m| == TWO32 && |h.ident| == 16 && BytesAt(m, a, HeaderBytes(h))
    ensures EhdrAt(m, a).ident == h.ident[..6]
    ensures HalfAt(m, a + 16) == h.typ && HalfAt(m, a + 18) == h.machine
    ensures WordAt(m, a + 24) == h.entry && WordAt(m, a + 28) == h.phoff
    ensures BytesAt(m, a + 32, HeaderTail(h))
  {
    var afterEntry := WordBytes(h.phoff) + HeaderTail(h);
    var afterVersion := WordBytes(h.entry) + afterEntry;
    var afterMachine := WordBytes(h.version) + afterVersion;
    var afterType := HalfBytes(h.machine) + afterMachine;
    var afterIdent := HalfBytes(h.typ) + afterType;
    BytesAtParts(m, a, h.ident, afterIdent);
    IdentDecoded(m, a, h.ident);
    HalfThen(m, a + 16, h.typ, afterType);
    HalfThen(m, a + 18, h.machine, afterMachine);
    WordThen(m, a + 20, h.version, afterVersion);
    WordThen(m, a + 24, h.entry, afterEntry);
    WordThen(m, a + 28, h.phoff, HeaderTail(h));
  }

  lemma HeaderTailDecoded(m: seq<byte>, a: nat, h: FileHeader)
    requires |m| == TWO32 && BytesAt(m, a + 32, HeaderTail(h))
    ensures HalfAt(m, a + 42) == h.phentsize && HalfAt(m, a + 44) == h.phnum
  {
    var afterPhnum := HalfBytes(h.shentsize) + (HalfBytes(h.shnum) + HalfBytes(h.shstrndx));
    var afterPhentsize := HalfBytes(h.phnum) + afterPhnum;
    var afterEhsize := HalfBytes(h.phentsize) + afterPhentsize;
    var afterFlags := HalfBytes(h.ehsize) + afterEhsize;
    WordThen(m, a + 32, h.shoff, WordBytes(h.flags) + afterFlags);
    WordThen(m, a + 36, h.flags, afterFlags);
    HalfThen(m, a + 40, h.ehsize, afterEhsize);
    HalfThen(m, a + 42, h.phentsize, afterPhentsize);
    HalfThen(m, a + 44, h.phnum, afterPhnum);
  }

  /** Reading back a file header gives its fields. */
  lemma HeaderDecoded(m: seq<byte>, a: nat, h: FileHeader)
    requires |m| == TWO32 && |h.ident| == 16 && BytesAt(m, a, HeaderBytes(h))
    ensures EhdrAt(m, a) == Ehdr(h.ident[..6], h.typ, h.machine, h.entry, h.phoff, h.phentsize, h.phnum)
  {
    HeaderFrontDecoded(m, a, h);
    HeaderTailDecoded(m, a, h);
  }

  lemma TableDecoded(m: seq<byte>, buf: nat, h: FileHeader, ps: seq<ProgramHeader>)
    requires |m| == TWO32 && FileHeld(m, buf, h, ps)
    ensures var t := Table(m, buf);
      && |t| == |ps|
      && forall i :: 0 <= i < |ps| ==>
           t[i] == Phdr(ps[i].typ, ps[i].offset, ps[i].vaddr, ps[i].filesz, ps[i].memsz)
  {
    HeaderDecoded(m, buf, h);
    forall i | 0 <= i < |ps|
      ensures Table(m, buf)[i] == Phdr(ps[i].typ, ps[i].offset, ps[i].vaddr, ps[i].filesz, ps[i].memsz)
    {
      EntryDecoded(m, buf + h.phoff + 32 * i, ps[i]);
    }
  }

  /** A segment to load with its file bytes, as the check computes it, inside a file of this size. */
  predicate GoodSegment(p: ProgramHeader, size: uint32) {
    (p.offset + p.filesz) % 0x1_0000_0000 <= size && p.filesz <= p.memsz
  }

  /** The files elf_load accepts, in terms of their header and entries: magic, 32-bit, little-endian, an i386
      executable, a table that is there and whose end, as computed, lies in the file; a PT_LOAD entry, and
      every one of them good. */
  ghost predicate GoodFile(h: FileHeader, ps: seq<ProgramHeader>, size: uint32) {
    && size >= 52 && |h.ident| == 16 && h.ident[..6] == [0x7F, 0x45, 0x4C, 0x46, 1, 1]
    && h.typ == 2 && h.machine == 3 && h.phoff != 0 && h.phnum != 0
    && (h.phoff + h.phnum * h.phentsize) % 0x1_0000_0000 <= size
    && (exists i :: 0 <= i < |ps| && ps[i].typ == 1)
    && forall i :: 0 <= i < |ps| && ps[i].typ == 1 ==> GoodSegment(ps[i], size)
  }

  /** Loadable means just that, for every file in memory. */
  lemma LoadableExactly(m: seq<byte>, buf: nat, size: uint32, h: FileHeader, ps: seq<ProgramHeader>)
    requires |m| == TWO32 && FileHeld(m, buf, h, ps)
    ensures Loadable(m, buf, size) <==> GoodFile(h, ps, size)
  {
    HeaderDecoded(m, buf, h);
    TableDecoded(m, buf, h, ps);
    AcceptedExactly(EhdrAt(m, buf), Table(m, buf), size, h, ps);
  }

  lemma AcceptedExactly(e: Ehdr, t: seq<Phdr>, size: uint32, h: FileHeader, ps: seq<ProgramHeader>)
    requires |h.ident| == 16 && e == Ehdr(h.ident[..6], h.typ, h.machine, h.entry, h.phoff, h.phentsize, h.phnum)
    requires |t| == |ps|
    requires forall i :: 0 <= i < |ps| ==>
      t[i] == Phdr(ps[i].typ, ps[i].offset, ps[i].vaddr, ps[i].filesz, ps[i].memsz)
    ensures GoodFile(h, ps, size) <==>
      && EHDR_SIZE <= size && HeaderOk(e) && Wrap(e.phoff + Times(e.phnum, e.phentsize)) <= size
      && (forall i :: 0 <= i < |t| && t[i].Load() ==> SegmentOk(t[i], size))
      && (exists i :: 0 <= i < |t| && t[i].Load())
  {
    WrapIsRemainder(e.phoff + Times(e.phnum, e.phentsize));
    forall i | 0 <= i < |t|
      ensures (t[i].Load() <==> ps[i].typ == 1) && (SegmentOk(t[i], size) <==> GoodSegment(ps[i], size))
    {
      WrapIsRemainder(t[i].offset + t[i].filesz);
    }
  }

  // Three files, at address 0x1000 in a memory that is otherwise zero.

  const BASE := 0x1000

  ghost function Zeros(n: nat): (s: seq<byte>)
    ensures |s| == n && forall i :: 0 <= i < n ==> s[i] == 0
  {
    seq(n, _ => 0)
  }

  ghost function InMemory(file: seq<byte>): (m: seq<byte>)
    requires |file| <= 0x1000
    ensures |m| == TWO32 && BytesAt(m, BASE, file)
  {
    var m := Zeros(BASE) + file + Zeros(TWO32 - BASE - |file|);
    assert forall i :: 0 <= i < |file| ==> m[BASE + i] == file[i];
    m
  }

  /** An i386 executable with one entry, right after the header. */
  function OneEntry(phentsize: uint16): (h: FileHeader)
    ensures |h.ident| == 16 && |HeaderBytes(h)| == 52
  {
    FileHeader([0x7F, 0x45, 0x4C, 0x46, 1, 1, 1, 0, 0, 0, 0, 0, 0, 0, 0, 0], 2, 3, 1, 0x40_0000, 52, 0, 0, 52,
               phentsize, 1, 0, 0, 0)
  }

  lemma OneEntryDecoded(m: seq<byte>, phentsize: uint16)
    requires |m| == TWO32 && BytesAt(m, BASE, HeaderBytes(OneEntry(phentsize)))
    ensures EhdrAt(m, BASE) == Ehdr([0x7F, 0x45, 0x4C, 0x46, 1, 1], 2, 3, 0x40_0000, 52, phentsize, 1)
  {
    HeaderDecoded(m, BASE, OneEntry(phentsize));
    assert OneEntry(phentsize).ident[..6] == [0x7F, 0x45, 0x4C, 0x46, 1, 1];
  }

  /** An entry size of zero passes the check of the table's end, whatever the table's real length: here a file
      that is all header. */
  lemma TableMayEscape(m: seq<byte>)
    requires m == InMemory(HeaderBytes(OneEntry(0)))
    ensures Admitted(m, BASE, EHDR_SIZE) && !ReadsInside(EhdrAt(m, BASE), Table(m, BASE), EHDR_SIZE)
  {
    OneEntryDecoded(m, 0);
    assert !InFile(EntryAddress(EHDR_SIZE, 0, 0), PHDR_SIZE, EHDR_SIZE);
  }

  /** A file with one entry of 32 bytes and contents after it. */
  function OneSegment(p: ProgramHeader, contents: seq<byte>): (s: seq<byte>)
    ensures |s| == 84 + |contents|
  {
    HeaderBytes(OneEntry(32)) + (EntryBytes(p) + contents)
  }

  lemma OneSegmentHeld(m: seq<byte>, p: ProgramHeader, contents: seq<byte>)
    requires |m| == TWO32 && BytesAt(m, BASE, OneSegment(p, contents))
    ensures FileHeld(m, BASE, OneEntry(32), [p]) && BytesAt(m, BASE + 84, contents)
    ensures EhdrAt(m, BASE) == Ehdr([0x7F, 0x45, 0x4C, 0x46, 1, 1], 2, 3, 0x40_0000, 52, 32, 1)
    ensures Table(m, BASE) == [Phdr(p.typ, p.offset, p.vaddr, p.filesz, p.memsz)]
  {
    BytesAtParts(m, BASE, HeaderBytes(OneEntry(32)), EntryBytes(p) + contents);
    BytesAtParts(m, BASE + 52, EntryBytes(p), contents);
    OneEntryDecoded(m, 32);
    TableDecoded(m, BASE, OneEntry(32), [p]);
  }

  lemma OneGoodSegment(p: ProgramHeader, size: uint32)
    requires p.typ == 1 && GoodSegment(p, size) && size >= 84
    ensures GoodFile(OneEntry(32), [p], size)
  {
    assert OneEntry(32).ident[..6] == [0x7F, 0x45, 0x4C, 0x46, 1, 1];
    assert [p][0].typ == 1;
  }

  lemma OneOutside(e: Ehdr, t: seq<Phdr>, size: uint32)
    requires |t| == 1 && t[0].Load() && !InFile(t[0].offset, t[0].filesz, size)
    ensures !ReadsInside(e, t, size)
  {
  }

  /** A sum that wraps passes the check of a segment: this file is loadable, and its one byte is not in it. */
  lemma SegmentMayEscape(m: seq<byte>, p: ProgramHeader)
    requires p == ProgramHeader(1, 0xFFFF_FFFF, 0x40_0000, 0x40_0000, 1, 1, 5, 0) && m == InMemory(OneSegment(p, []))
    ensures Loadable(m, BASE, 84) && !ReadsInside(EhdrAt(m, BASE), Table(m, BASE), 84)
  {
    OneSegmentHeld(m, p, []);
    OneGoodSegment(p, 84);
    LoadableExactly(m, BASE, 84, OneEntry(32), [p]);
    OneOutside(EhdrAt(m, BASE), Table(m, BASE), 84);
  }

  // ---------------------------------------------------------------- what loading does

  /** The segment's file bytes, then zeros up to memsz. */
  ghost predicate SegmentLoaded(m0: seq<byte>, m: seq<byte>, buf: nat, p: Phdr)
    requires |m0| == |m| == TWO32
  {
    && p.filesz <= p.memsz && p.End() <= TWO32 && buf + p.offset + p.filesz <= TWO32
    && (forall a :: p.vaddr <= a < p.vaddr + p.filesz ==> m[a] == m0[a - p.vaddr + (buf + p.offset)])
    && (forall a :: p.vaddr + p.filesz <= a < p.End() ==> m[a] == 0)
  }

  ghost predicate Target(t: seq<Phdr>, n: nat, a: int)
    requires n <= |t|
  {
    exists i :: 0 <= i < n && t[i].Load() && t[i].vaddr <= a < t[i].End()
  }

  /** Outside the targets of the first n entries the byte at a is the same. */
  ghost predicate ByteKept(m0: seq<byte>, m: seq<byte>, t: seq<Phdr>, n: nat, a: uint32)
    requires |m0| == |m| == TWO32 && n <= |t|
  {
    !Target(t, n, a) ==> m[a] == m0[a]
  }

  /** The image after the first n entries: their segments are loaded and nothing else changed. */
  ghost predicate Image(m0: seq<byte>, m: seq<byte>, buf: nat, t: seq<Phdr>, n: nat)
    requires |m0| == TWO32 && n <= |t|
  {
    && |m| == TWO32
    && (forall i :: 0 <= i < n && t[i].Load() ==> SegmentLoaded(m0, m, buf, t[i]))
    && (forall a: uint32 :: ByteKept(m0, m, t, n, a))
  }

  /** The exact lowest start and highest end of the first n entries' segments. */
  ghost predicate Extent(t: seq<Phdr>, n: nat, lo: int, hi: int, any: bool)
    requires n <= |t|
  {
    && (any <==> exists i :: 0 <= i < n && t[i].Load())
    && (!any ==> lo == NO_SEGMENT && hi == 0)
    && (forall i :: 0 <= i < n && t[i].Load() ==> lo <= t[i].vaddr && t[i].End() <= hi)
    && (any ==> (exists i :: 0 <= i < n && t[i].Load() && t[i].vaddr == lo)
                && exists i :: 0 <= i < n && t[i].Load() && t[i].End() == hi)
  }

  /** The two memories agree on the file buffer. */
  ghost predicate SameBuffer(m0: seq<byte>, m: seq<byte>, buf: nat, size: uint32)
    requires |m0| == |m| == TWO32
  {
    buf + size <= TWO32 && forall a {:trigger m[a]} :: buf <= a < buf + size ==> m[a] == m0[a]
  }

  lemma BufferKept(m0: seq<byte>, m: seq<byte>, buf: nat, size: uint32, t: seq<Phdr>, n: nat)
    requires |m0| == TWO32 && SegmentsTame(t, buf, size) && n <= |t| && buf + size <= TWO32
    requires Image(m0, m, buf, t, n)
    ensures SameBuffer(m0, m, buf, size)
  {
    forall a | buf <= a < buf + size ensures m[a] == m0[a] { assert ByteKept(m0, m, t, n, a); }
  }

  lemma HalfKept(m0: seq<byte>, m: seq<byte>, buf: nat, size: uint32, a: nat)
    requires |m0| == |m| == TWO32 && SameBuffer(m0, m, buf, size)
    requires buf <= a && a + 2 <= buf + size
    ensures HalfAt(m, a) == HalfAt(m0, a)
  {
  }

  lemma WordKept(m0: seq<byte>, m: seq<byte>, buf: nat, size: uint32, a: nat)
    requires |m0| == |m| == TWO32 && SameBuffer(m0, m, buf, size)
    requires buf <= a && a + 4 <= buf + size
    ensures WordAt(m, a) == WordAt(m0, a)
  {
    assert m[a] == m0[a] && m[a + 1] == m0[a + 1] && m[a + 2] == m0[a + 2] && m[a + 3] == m0[a + 3];
  }

  /** One more segment. */
  lemma ImageGrows(m0: seq<byte>, m: seq<byte>, r: seq<byte>, buf: nat, size: uint32, t: seq<Phdr>, n: nat)
    requires |m0| == TWO32 && SegmentsTame(t, buf, size) && n < |t|
    requires Image(m0, m, buf, t, n)
    requires t[n].Load() && SameOutside(m, r, t[n].vaddr, t[n].End()) && SegmentLoaded(m0, r, buf, t[n])
    ensures Image(m0, r, buf, t, n + 1)
  {
    var p := t[n];
    forall i | 0 <= i < n && t[i].Load() ensures SegmentLoaded(m0, r, buf, t[i]) {
      assert SegmentLoaded(m0, m, buf, t[i]);
      assert t[i].End() <= p.vaddr || p.End() <= t[i].vaddr;
    }
    var n' := n + 1;
    forall a: uint32 ensures ByteKept(m0, r, t, n', a) {
      assert ByteKept(m0, m, t, n, a);
      assert Target(t, n, a) ==> Target(t, n', a);
    }
  }

  lemma ImageSkips(m0: seq<byte>, m: seq<byte>, buf: nat, t: seq<Phdr>, n: nat)
    requires |m0| == TWO32 && n < |t| && !t[n].Load() && Image(m0, m, buf, t, n)
    ensures Image(m0, m, buf, t, n + 1)
  {
    var n' := n + 1;
    forall a: uint32 ensures ByteKept(m0, m, t, n', a) {
      assert ByteKept(m0, m, t, n, a);
      assert Target(t, n, a) ==> Target(t, n', a);
    }
  }

  lemma ExtentGrows(t: seq<Phdr>, n: nat, lo: int, hi: int, any: bool)
    requires n < |t| && t[n].Load() && Extent(t, n, lo, hi, any)
    ensures Extent(t, n + 1, if t[n].vaddr < lo then t[n].vaddr else lo,
                   if t[n].End() > hi then t[n].End() else hi, true)
  {
    assert 0 <= n < n + 1 && t[n].Load();
  }

  // ---------------------------------------------------------------- the code

  method Half(mem: array<byte>, a: nat) returns (h: nat)
    requires mem.Length == TWO32
    ensures h == HalfAt(mem[..], a)
  {
    h := mem[Wrap(a)] as int + 0x100 * (mem[Wrap(a + 1)] as int);
  }

  method Word(mem: array<byte>, a: nat) returns (w: uint32)
    requires mem.Length == TWO32
    ensures w == WordAt(mem[..], a)
  {
    if a + 4 <= TWO32 {
      w := FetchWord(mem, a);
      return;
    }
    var low := Half(mem, a);
    var high := Half(mem, a + 2);
    w := low + 0x1_0000 * high;
  }

  // Addresses on the circle of 2^32 bytes.

  /** How far a lies above base, going round. */
  function Offset(a: uint32, base: uint32): (d: uint32) {
    if base <= a then a - base else a + TWO32 - base
  }

  function Plus(a: uint32, d: uint32): (r: uint32) {
    if a + d < TWO32 then a + d else a + d - TWO32
  }

  /** The byte at a after copying n bytes upwards: outside the destination it is unchanged; inside, it is what
      the source byte was, or, if that lies in the part of the destination written before, what it is now. */
  ghost predicate CopyAt(m: seq<byte>, r: seq<byte>, dst: uint32, src: uint32, n: nat, a: uint32)
    requires |m| == |r| == TWO32
  {
    var k, d := Offset(a, dst), Offset(src, dst);
    r[a] == if k >= n then m[a] else if k + d < TWO32 then m[Plus(a, d)] else r[Plus(a, d)]
  }

  ghost predicate CopiedUp(m: seq<byte>, r: seq<byte>, dst: uint32, src: uint32, n: nat) {
    |m| == |r| == TWO32 && forall a: uint32 :: CopyAt(m, r, dst, src, n, a)
  }

  ghost predicate ClearAt(m: seq<byte>, r: seq<byte>, dst: uint32, n: nat, a: uint32)
    requires |m| == |r| == TWO32
  {
    r[a] == if Offset(a, dst) < n then 0 else m[a]
  }

  ghost predicate ClearedUp(m: seq<byte>, r: seq<byte>, dst: uint32, n: nat) {
    |m| == |r| == TWO32 && forall a: uint32 :: ClearAt(m, r, dst, n, a)
  }

  lemma ClearNext(m: seq<byte>, r: seq<byte>, r': seq<byte>, dst: uint32, n: uint32)
    requires ClearedUp(m, r, dst, n) && r' == r[Plus(dst, n) := 0]
    ensures ClearedUp(m, r', dst, n + 1)
  {
    var n' := n + 1;
    forall a: uint32 ensures ClearAt(m, r', dst, n', a) { assert ClearAt(m, r, dst, n, a); }
  }

  lemma CopyNext(m: seq<byte>, r: seq<byte>, r': seq<byte>, dst: uint32, src: uint32, n: uint32)
    requires CopiedUp(m, r, dst, src, n)
    requires r' == r[Plus(dst, n) := r[Plus(src, n)]]
    ensures CopiedUp(m, r', dst, src, n + 1)
  {
    var w, d, n' := Plus(dst, n), Offset(src, dst), n + 1;
    forall a: uint32 ensures CopyAt(m, r', dst, src, n', a) {
      assert CopyAt(m, r, dst, src, n, a);
      if a == w {
        assert Plus(src, n) == Plus(a, d);
        assert CopyAt(m, r, dst, src, n, Plus(a, d));
      }
    }
  }

  /** loader_memcpy, for all addresses and sizes, overlapping and wrapping or not. */
  method Memcpy(mem: array<byte>, dst: uint32, src: uint32, size: uint32)
    requires mem.Length == TWO32
    modifies mem
    ensures CopiedUp(old(mem[..]), mem[..], dst, src, size)
  {
    ghost var m := mem[..];
    for index := 0 to size
      invariant CopiedUp(m, mem[..], dst, src, index)
    {
      ghost var r := mem[..];
      mem[Plus(dst, index)] := mem[Plus(src, index)];
      CopyNext(m, r, mem[..], dst, src, index);
    }
  }

  /** loader_memset with zero. */
  method Memclear(mem: array<byte>, dst: uint32, size: uint32)
    requires mem.Length == TWO32
    modifies mem
    ensures ClearedUp(old(mem[..]), mem[..], dst, size)
  {
    ghost var m := mem[..];
    for index := 0 to size
      invariant ClearedUp(m, mem[..], dst, index)
    {
      ghost var r := mem[..];
      mem[Plus(dst, index)] := 0;
      ClearNext(m, r, mem[..], dst, index);
    }
  }

  /** The outcome of a copy is determined. */
  lemma {:induction false} CopyDetermined(m: seq<byte>, r: seq<byte>, r': seq<byte>, dst: uint32, src: uint32,
                                          n: nat, a: uint32)
    requires CopiedUp(m, r, dst, src, n) && CopiedUp(m, r', dst, src, n)
    ensures r[a] == r'[a]
    decreases Offset(a, dst)
  {
    assert CopyAt(m, r, dst, src, n, a) && CopyAt(m, r', dst, src, n, a);
    var k, d := Offset(a, dst), Offset(src, dst);
    if k < n && k + d >= TWO32 { CopyDetermined(m, r, r', dst, src, n, Plus(a, d)); }
  }

  /** Every byte of the destination is what the byte of the source was. */
  ghost predicate PlainCopy(m: seq<byte>, r: seq<byte>, dst: uint32, src: uint32, n: nat)
    requires |m| == |r| == TWO32
  {
    forall a: uint32 {:trigger Offset(a, dst)} :: Offset(a, dst) < n ==> r[a] == m[Plus(a, Offset(src, dst))]
  }

  /** A copy is plain unless the destination starts above the source and inside it; then the source byte found
      at the start of the destination is lost, replaced by the first byte of the source. */
  lemma CopyIsPlain(m: seq<byte>, r: seq<byte>, dst: uint32, src: uint32, n: nat)
    requires CopiedUp(m, r, dst, src, n)
    ensures n + Offset(src, dst) <= TWO32 ==> PlainCopy(m, r, dst, src, n)
    ensures n + Offset(src, dst) > TWO32 && n < TWO32 ==> r[Plus(dst, Offset(dst, src))] == m[src]
    ensures n + Offset(src, dst) > TWO32 && n < TWO32 && PlainCopy(m, r, dst, src, n) ==> m[src] == m[dst]
  {
    var d := Offset(src, dst);
    if n + d <= TWO32 {
      forall a: uint32 | Offset(a, dst) < n ensures r[a] == m[Plus(a, d)] {
        assert CopyAt(m, r, dst, src, n, a);
      }
    } else if n < TWO32 {
      var b := Plus(dst, Offset(dst, src));
      assert CopyAt(m, r, dst, src, n, b) && CopyAt(m, r, dst, src, n, dst);
      assert Offset(b, dst) < n && Plus(b, d) == dst && Plus(dst, d) == src;
    }
  }

  ghost predicate Copyable(dst: nat, src: nat, size: nat) {
    dst + size <= TWO32 && src + size <= TWO32 && (dst + size <= src || src + size <= dst)
  }

  lemma CopyApart(m: seq<byte>, r: seq<byte>, dst: uint32, src: uint32, size: uint32)
    requires CopiedUp(m, r, dst, src, size) && Copyable(dst, src, size)
    ensures SameOutside(m, r, dst, dst + size)
    ensures forall a :: dst <= a < dst + size ==> r[a] == m[a - dst + src]
  {
    forall a | 0 <= a < TWO32 && !(dst <= a < dst + size) ensures r[a] == m[a] {
      assert CopyAt(m, r, dst, src, size, a);
    }
    forall a | dst <= a < dst + size ensures r[a] == m[a - dst + src] {
      assert CopyAt(m, r, dst, src, size, a);
    }
  }

  lemma ClearApart(m: seq<byte>, r: seq<byte>, dst: uint32, size: uint32)
    requires ClearedUp(m, r, dst, size) && dst + size <= TWO32
    ensures SameOutside(m, r, dst, dst + size)
    ensures forall a :: dst <= a < dst + size ==> r[a] == 0
  {
    forall a | 0 <= a < TWO32 && !(dst <= a < dst + size) ensures r[a] == m[a] { assert ClearAt(m, r, dst, size, a); }
    forall a | dst <= a < dst + size ensures r[a] == 0 { assert ClearAt(m, r, dst, size, a); }
  }

  lemma EntryKept(m: seq<byte>, r: seq<byte>, buf: nat, size: uint32, ph: nat)
    requires |m| == |r| == TWO32 && SameBuffer(m, r, buf, size)
    requires buf <= ph && ph + PHDR_SIZE <= buf + size
    ensures PhdrAt(r, ph) == PhdrAt(m, ph)
  {
    WordKept(m, r, buf, size, ph);
    WordKept(m, r, buf, size, ph + 4);
    WordKept(m, r, buf, size, ph + 8);
    WordKept(m, r, buf, size, ph + 16);
    WordKept(m, r, buf, size, ph + 20);
  }

  /** The entry at ph and its segment's file bytes lie in the buffer, the segment's target outside it. */
  ghost predicate Clear(p: Phdr, ph: nat, buf: nat, size: uint32) {
    && buf <= ph && ph + PHDR_SIZE <= buf + size <= TWO32
    && p.offset + p.filesz < TWO32 && p.End() < TWO32
    && (p.End() <= buf || buf + size <= p.vaddr)
  }

  lemma ClearCopies(p: Phdr, ph: nat, buf: nat, size: uint32)
    requires Clear(p, ph, buf, size) && SegmentOk(p, size)
    ensures p.offset + p.filesz <= size && Copyable(p.vaddr, buf + p.offset, p.filesz)
  {
  }

  lemma BufferApart(m: seq<byte>, r: seq<byte>, buf: nat, size: uint32, lo: nat, hi: nat)
    requires |m| == |r| == TWO32 && buf + size <= TWO32
    requires SameOutside(m, r, lo, hi) && (hi <= buf || buf + size <= lo)
    ensures SameBuffer(m, r, buf, size)
  {
  }

  datatype Status = Skipped | Rejected | Loaded(start: uint32, end: uint32) {
    function Kind(): (k: Kind) {
      match this
      case Skipped => Skip
      case Rejected => Reject
      case Loaded(_, _) => Load
    }
  }

  datatype Kind = Skip | Reject | Load

  /** What becomes of an entry. */
  function KindOf(p: Phdr, size: uint32): (k: Kind) {
    if !p.Load() then Skip else if SegmentOk(p, size) then Load else Reject
  }

  // The fields of the entry at ph are read from memory each time the code uses them.

  method Fields(mem: array<byte>, ph: nat) returns (p: Phdr)
    requires mem.Length == TWO32
    ensures p == PhdrAt(mem[..], ph)
  {
    var typ := Word(mem, ph);
    var offset := Word(mem, ph + 4);
    var vaddr := Word(mem, ph + 8);
    var filesz := Word(mem, ph + 16);
    var memsz := Word(mem, ph + 20);
    p := Phdr(typ, offset, vaddr, filesz, memsz);
  }

  ghost predicate Copied(m: seq<byte>, r: seq<byte>, buf: nat, p: Phdr)
    requires |m| == |r| == TWO32
  {
    && p.vaddr + p.filesz <= TWO32 && buf + p.offset + p.filesz <= TWO32
    && SameOutside(m, r, p.vaddr, p.vaddr + p.filesz)
    && forall a :: p.vaddr <= a < p.vaddr + p.filesz ==> r[a] == m[a - p.vaddr + (buf + p.offset)]
  }

  ghost predicate Cleared(m: seq<byte>, r: seq<byte>, p: Phdr)
    requires |m| == |r| == TWO32
  {
    && p.End() <= TWO32
    && SameOutside(m, r, p.vaddr + p.filesz, p.End())
    && forall a :: p.vaddr + p.filesz <= a < p.End() ==> r[a] == 0
  }

  lemma SegmentAssembled(m: seq<byte>, m1: seq<byte>, r: seq<byte>, buf: nat, p: Phdr)
    requires |m| == |m1| == |r| == TWO32 && p.filesz <= p.memsz
    requires Copied(m, m1, buf, p) && Cleared(m1, r, p)
    ensures SameOutside(m, r, p.vaddr, p.End()) && SegmentLoaded(m, r, buf, p)
  {
  }

  /** Loading an entry takes memory from m to r by way of m1; its fields are read from memory before the copy
      (p), after it (p1) and at the end (q). */
  ghost predicate Filling(m: seq<byte>, m1: seq<byte>, r: seq<byte>, buf: nat, p: Phdr, p1: Phdr, q: Phdr,
                          status: Status)
  {
    && CopiedUp(m, m1, p.vaddr, Wrap(buf + p.offset), p.filesz)
    && (if p1.memsz > p1.filesz then ClearedUp(m1, r, Wrap(p.vaddr + p1.filesz), p1.memsz - p1.filesz) else r == m1)
    && status == Loaded(q.vaddr, Wrap(q.vaddr + q.memsz))
  }

  ghost predicate Filled(m: seq<byte>, r: seq<byte>, buf: nat, ph: nat, status: Status)
    requires |m| == |r| == TWO32
  {
    exists m1 :: |m1| == TWO32 && Filling(m, m1, r, buf, PhdrAt(m, ph), PhdrAt(m1, ph), PhdrAt(r, ph), status)
  }

  lemma FilledBy(m: seq<byte>, m1: seq<byte>, r: seq<byte>, buf: nat, ph: nat, p: Phdr, p1: Phdr, q: Phdr,
                 status: Status)
    requires |m| == |m1| == |r| == TWO32
    requires p == PhdrAt(m, ph) && p1 == PhdrAt(m1, ph) && q == PhdrAt(r, ph)
    requires Filling(m, m1, r, buf, p, p1, q, status)
    ensures Filled(m, r, buf, ph, status)
  {
  }

  /** What handling the entry at ph does to memory. */
  ghost predicate EntryStep(m: seq<byte>, r: seq<byte>, buf: nat, size: uint32, ph: nat, status: Status)
    requires |m| == |r| == TWO32
  {
    && status.Kind() == KindOf(PhdrAt(m, ph), size)
    && (if status.Loaded? then Filled(m, r, buf, ph, status) else r == m)
  }

  /** loader_memset for what the file does not fill. */
  method ClearTail(mem: array<byte>, dst: uint32, f: Phdr)
    requires mem.Length == TWO32
    modifies mem
    ensures if f.memsz > f.filesz then ClearedUp(old(mem[..]), mem[..], Wrap(dst + f.filesz), f.memsz - f.filesz)
            else mem[..] == old(mem[..])
  {
    if f.memsz > f.filesz {
      Memclear(mem, Wrap(dst + f.filesz), f.memsz - f.filesz);
    }
  }

  /** The copy and the clearing of the entry at ph. */
  method Fill(mem: array<byte>, buf: uint32, ph: nat, p: Phdr) returns (status: Status)
    requires mem.Length == TWO32 && p == PhdrAt(mem[..], ph)
    modifies mem
    ensures status.Loaded? && Filled(old(mem[..]), mem[..], buf, ph, status)
  {
    ghost var m := mem[..];
    Memcpy(mem, p.vaddr, Wrap(buf + p.offset), p.filesz);
    ghost var m1 := mem[..];
    var p1 := Fields(mem, ph);
    ClearTail(mem, p.vaddr, p1);
    var q := Fields(mem, ph);
    status := Loaded(q.vaddr, Wrap(q.vaddr + q.memsz));
    FilledBy(m, m1, mem[..], buf, ph, p, p1, q, status);
  }

  /** The body of elf_load's loop for the entry at ph. */
  method LoadSegment(mem: array<byte>, buf: uint32, size: uint32, ph: nat) returns (status: Status)
    requires mem.Length == TWO32
    modifies mem
    ensures EntryStep(old(mem[..]), mem[..], buf, size, ph, status)
  {
    var p := Fields(mem, ph);
    if p.typ != PT_LOAD { return Skipped; }
    if Wrap(p.offset + p.filesz) > size || p.filesz > p.memsz { return Rejected; }
    assert KindOf(p, size) == Load;
    status := Fill(mem, buf, ph, p);
  }

  /** The copy of a clear entry leaves the entry alone. */
  lemma CopiedClear(m: seq<byte>, m1: seq<byte>, buf: uint32, size: uint32, ph: nat, p: Phdr)
    requires |m| == |m1| == TWO32 && p == PhdrAt(m, ph) && Clear(p, ph, buf, size) && SegmentOk(p, size)
    requires CopiedUp(m, m1, p.vaddr, Wrap(buf + p.offset), p.filesz)
    ensures Copied(m, m1, buf, p) && PhdrAt(m1, ph) == p
  {
    ClearCopies(p, ph, buf, size);
    if p.filesz > 0 {
      CopyApart(m, m1, p.vaddr, buf + p.offset, p.filesz);
    } else {
      NothingCopied(m, m1, p.vaddr, Wrap(buf + p.offset));
    }
    BufferApart(m, m1, buf, size, p.vaddr, p.vaddr + p.filesz);
    EntryKept(m, m1, buf, size, ph);
  }

  lemma NothingCopied(m: seq<byte>, r: seq<byte>, dst: uint32, src: uint32)
    requires CopiedUp(m, r, dst, src, 0)
    ensures r == m
  {
    forall a | 0 <= a < TWO32 ensures r[a] == m[a] { assert CopyAt(m, r, dst, src, 0, a); }
  }

  /** So does clearing its tail. */
  lemma ClearedClear(m: seq<byte>, r: seq<byte>, buf: uint32, size: uint32, ph: nat, p: Phdr)
    requires |m| == |r| == TWO32 && p == PhdrAt(m, ph) && Clear(p, ph, buf, size) && SegmentOk(p, size)
    requires if p.memsz > p.filesz then ClearedUp(m, r, Wrap(p.vaddr + p.filesz), p.memsz - p.filesz) else r == m
    ensures Cleared(m, r, p) && PhdrAt(r, ph) == p
  {
    if p.memsz > p.filesz { ClearApart(m, r, p.vaddr + p.filesz, p.memsz - p.filesz); }
    BufferApart(m, r, buf, size, p.vaddr + p.filesz, p.End());
    EntryKept(m, r, buf, size, ph);
  }

  lemma FillingClear(m: seq<byte>, m1: seq<byte>, r: seq<byte>, buf: uint32, size: uint32, ph: nat,
                     p: Phdr, p1: Phdr, q: Phdr, status: Status)
    requires |m| == |m1| == |r| == TWO32
    requires p == PhdrAt(m, ph) && p1 == PhdrAt(m1, ph) && q == PhdrAt(r, ph)
    requires Clear(p, ph, buf, size) && SegmentOk(p, size) && Filling(m, m1, r, buf, p, p1, q, status)
    ensures status == Loaded(p.vaddr, p.End())
    ensures SameOutside(m, r, p.vaddr, p.End()) && SegmentLoaded(m, r, buf, p)
  {
    assert Copied(m, m1, buf, p) && p1 == p by { CopiedClear(m, m1, buf, size, ph, p); }
    assert Cleared(m1, r, p) && q == p by { ClearedClear(m1, r, buf, size, ph, p); }
    SegmentAssembled(m, m1, r, buf, p);
  }

  /** A clear entry that is loaded holds its file bytes, then zeros. */
  lemma LoadedClear(m: seq<byte>, r: seq<byte>, buf: uint32, size: uint32, ph: nat, status: Status, p: Phdr)
    requires |m| == |r| == TWO32 && EntryStep(m, r, buf, size, ph, status) && status.Loaded?
    requires p == PhdrAt(m, ph) && Clear(p, ph, buf, size)
    ensures status == Loaded(p.vaddr, p.End())
    ensures SameOutside(m, r, p.vaddr, p.End()) && SegmentLoaded(m, r, buf, p)
  {
    var m1 :| |m1| == TWO32 && Filling(m, m1, r, buf, PhdrAt(m, ph), PhdrAt(m1, ph), PhdrAt(r, ph), status);
    FillingClear(m, m1, r, buf, size, ph, p, PhdrAt(m1, ph), PhdrAt(r, ph), status);
  }

  /** elf_load_result_t. */
  datatype LoadResult = LoadResult(entry: uint32, loadMin: uint32, loadMax: uint32)

  /** The loop has handled n entries. */
  ghost predicate Progress(m0: seq<byte>, m: seq<byte>, buf: nat, size: uint32, t: seq<Phdr>, n: nat,
                           lo: int, hi: int, any: bool)
    requires |m0| == TWO32
  {
    && n <= |t| && Image(m0, m, buf, t, n) && Extent(t, n, lo, hi, any)
    && forall i :: 0 <= i < n && t[i].Load() ==> SegmentOk(t[i], size)
  }

  lemma EntryInBuffer(m0: seq<byte>, buf: nat, size: uint32, i: nat)
    requires |m0| == TWO32 && Tame(m0, buf, size) && Admitted(m0, buf, size) && i < |Table(m0, buf)|
    ensures var ph := EntryAddress(EhdrAt(m0, buf).phoff, buf, i);
      Table(m0, buf)[i] == PhdrAt(m0, ph) && buf <= ph && ph + PHDR_SIZE <= buf + size
  {
  }

  /** A segment copied from the current buffer is copied from the original file. */
  lemma LoadedFromFile(m0: seq<byte>, m: seq<byte>, r: seq<byte>, buf: nat, size: uint32, p: Phdr)
    requires |m0| == |m| == |r| == TWO32 && SameBuffer(m0, m, buf, size)
    requires p.offset + p.filesz <= size && SegmentLoaded(m, r, buf, p)
    ensures SegmentLoaded(m0, r, buf, p)
  {
  }

  /** One more segment loaded. */
  lemma ProgressGrows(m0: seq<byte>, m: seq<byte>, r: seq<byte>, buf: nat, size: uint32, t: seq<Phdr>, n: nat,
                      lo: int, hi: int, any: bool)
    requires |m0| == TWO32 && SegmentsTame(t, buf, size) && buf + size <= TWO32 && n < |t|
    requires Progress(m0, m, buf, size, t, n, lo, hi, any)
    requires t[n].Load() && SegmentOk(t[n], size) && |r| == TWO32
    requires SameOutside(m, r, t[n].vaddr, t[n].End()) && SegmentLoaded(m, r, buf, t[n])
    ensures Progress(m0, r, buf, size, t, n + 1, if t[n].vaddr < lo then t[n].vaddr else lo,
                     if t[n].End() > hi then t[n].End() else hi, true)
  {
    assert Image(m0, r, buf, t, n + 1) by {
      BufferKept(m0, m, buf, size, t, n);
      LoadedFromFile(m0, m, r, buf, size, t[n]);
      ImageGrows(m0, m, r, buf, size, t, n);
    }
    ExtentGrows(t, n, lo, hi, any);
  }

  /** One more entry that is not a segment to load. */
  lemma ProgressSkips(m0: seq<byte>, m: seq<byte>, buf: nat, size: uint32, t: seq<Phdr>, n: nat,
                      lo: int, hi: int, any: bool)
    requires |m0| == TWO32 && n < |t| && !t[n].Load()
    requires Progress(m0, m, buf, size, t, n, lo, hi, any)
    ensures Progress(m0, m, buf, size, t, n + 1, lo, hi, any)
  {
    ImageSkips(m0, m, buf, t, n);
  }

  // ---------------------------------------------------------------- the loop as a history

  /** load_min and load_max after the entries with these outcomes, and whether any was loaded. */
  function Lowest(sts: seq<Status>): (lo: uint32) {
    if sts == [] then NO_SEGMENT
    else
      var lo, st := Lowest(sts[..|sts| - 1]), sts[|sts| - 1];
      if st.Loaded? && st.start < lo then st.start else lo
  }

  function Highest(sts: seq<Status>): (hi: uint32) {
    if sts == [] then 0
    else
      var hi, st := Highest(sts[..|sts| - 1]), sts[|sts| - 1];
      if st.Loaded? && st.end > hi then st.end else hi
  }

  function AnyLoaded(sts: seq<Status>): (any: bool) {
    if sts == [] then false else AnyLoaded(sts[..|sts| - 1]) || sts[|sts| - 1].Loaded?
  }

  lemma SummaryNext(sts: seq<Status>, st: Status, sts': seq<Status>)
    requires sts' == sts + [st]
    ensures Lowest(sts') == if st.Loaded? && st.start < Lowest(sts) then st.start else Lowest(sts)
    ensures Highest(sts') == if st.Loaded? && st.end > Highest(sts) then st.end else Highest(sts)
    ensures AnyLoaded(sts') == (AnyLoaded(sts) || st.Loaded?)
  {
    assert sts'[..|sts|] == sts;
  }

  /** Memory before and after each entry, and each entry's outcome; only the last may be a rejection. */
  ghost predicate History(ms: seq<seq<byte>>, sts: seq<Status>, buf: nat, size: uint32, phoff: uint32) {
    && |ms| == |sts| + 1
    && (forall i :: 0 <= i < |ms| ==> |ms[i]| == TWO32)
    && forall i :: 0 <= i < |sts| ==> HistoryStep(ms, sts, buf, size, phoff, i)
  }

  ghost predicate HistoryStep(ms: seq<seq<byte>>, sts: seq<Status>, buf: nat, size: uint32, phoff: uint32, i: nat)
    requires |ms| == |sts| + 1 && i < |sts| && |ms[i]| == |ms[i + 1]| == TWO32
  {
    && i < HalfAt(ms[i], buf + 44)
    && EntryStep(ms[i], ms[i + 1], buf, size, EntryAddress(phoff, buf, i), sts[i])
    && (sts[i].Rejected? ==> i == |sts| - 1)
  }

  lemma HistoryGrows(ms: seq<seq<byte>>, sts: seq<Status>, buf: nat, size: uint32, phoff: uint32, r: seq<byte>,
                     st: Status)
    requires History(ms, sts, buf, size, phoff) && |r| == TWO32
    requires forall i :: 0 <= i < |sts| ==> !sts[i].Rejected?
    requires |sts| < HalfAt(ms[|sts|], buf + 44)
    requires EntryStep(ms[|sts|], r, buf, size, EntryAddress(phoff, buf, |sts|), st)
    ensures History(ms + [r], sts + [st], buf, size, phoff)
  {
    var ms', sts' := ms + [r], sts + [st];
    forall i | 0 <= i < |sts'| ensures HistoryStep(ms', sts', buf, size, phoff, i) {
      if i < |sts| {
        assert HistoryStep(ms, sts, buf, size, phoff, i);
        assert ms'[i] == ms[i] && ms'[i + 1] == ms[i + 1] && sts'[i] == sts[i];
      } else {
        assert ms'[i] == ms[i] && ms'[i + 1] == r && sts'[i] == st;
      }
    }
  }

  /** elf_load's loop; the number of entries is read from memory again before every test. */
  method LoadAll(mem: array<byte>, buf: uint32, size: uint32, phoff: uint32)
    returns (ok: bool, loadMin: uint32, loadMax: uint32, any: bool, ghost ms: seq<seq<byte>>, ghost sts: seq<Status>)
    requires mem.Length == TWO32
    modifies mem
    ensures History(ms, sts, buf, size, phoff) && ms[0] == old(mem[..]) && ms[|sts|] == mem[..]
    ensures ok ==> HalfAt(mem[..], buf + 44) <= |sts| && forall i :: 0 <= i < |sts| ==> !sts[i].Rejected?
    ensures !ok ==> |sts| > 0 && sts[|sts| - 1].Rejected?
    ensures ok ==> loadMin == Lowest(sts) && loadMax == Highest(sts) && any == AnyLoaded(sts)
  {
    loadMin, loadMax, any := NO_SEGMENT, 0, false;
    ms, sts := [mem[..]], [];
    var i := 0;
    var phnum := Half(mem, buf + 44);
    while i < phnum
      invariant i == |sts| <= 0xFFFF && phnum == HalfAt(mem[..], buf + 44)
      invariant History(ms, sts, buf, size, phoff) && ms[0] == old(mem[..]) && ms[|sts|] == mem[..]
      invariant forall j :: 0 <= j < |sts| ==> !sts[j].Rejected?
      invariant loadMin == Lowest(sts) && loadMax == Highest(sts) && any == AnyLoaded(sts)
      decreases 0xFFFF - i
    {
      var status := LoadSegment(mem, buf, size, EntryAddress(phoff, buf, i));
      HistoryGrows(ms, sts, buf, size, phoff, mem[..], status);
      SummaryNext(sts, status, sts + [status]);
      ms, sts := ms + [mem[..]], sts + [status];
      if status.Rejected? { return false, loadMin, loadMax, any, ms, sts; }
      if status.Loaded? {
        if status.start < loadMin { loadMin := status.start; }
        if status.end > loadMax { loadMax := status.end; }
        any := true;
      }
      i := i + 1;
      phnum := Half(mem, buf + 44);
    }
    ok := true;
  }

  // ---------------------------------------------------------------- what the history means

  /** A tame file that passed the checks before the loop, with its table. */
  ghost predicate TameFile(m0: seq<byte>, buf: nat, size: uint32, phoff: uint32, t: seq<Phdr>)
    requires |m0| == TWO32
  {
    && Tame(m0, buf, size) && Admitted(m0, buf, size)
    && t == Table(m0, buf) && phoff == EhdrAt(m0, buf).phoff
  }

  lemma HeaderStays(m0: seq<byte>, m: seq<byte>, buf: nat, size: uint32, phoff: uint32, t: seq<Phdr>, n: nat)
    requires |m0| == TWO32 && TameFile(m0, buf, size, phoff, t)
    requires n <= |t| && Image(m0, m, buf, t, n)
    ensures HalfAt(m, buf + 44) == |t| && WordAt(m, buf + 24) == EhdrAt(m0, buf).entry
  {
    BufferKept(m0, m, buf, size, t, n);
    HalfKept(m0, m, buf, size, buf + 44);
    WordKept(m0, m, buf, size, buf + 24);
  }

  lemma EntryStays(m0: seq<byte>, m: seq<byte>, buf: nat, size: uint32, phoff: uint32, t: seq<Phdr>, n: nat)
    requires |m0| == TWO32 && TameFile(m0, buf, size, phoff, t)
    requires n < |t| && Image(m0, m, buf, t, n)
    ensures PhdrAt(m, EntryAddress(phoff, buf, n)) == t[n]
    ensures t[n].Load() ==> Clear(t[n], EntryAddress(phoff, buf, n), buf, size)
  {
    BufferKept(m0, m, buf, size, t, n);
    EntryInBuffer(m0, buf, size, n);
    EntryKept(m0, m, buf, size, EntryAddress(phoff, buf, n));
  }

  /** After the entries with outcomes sts, on a tame file. */
  ghost predicate Reached(m0: seq<byte>, m: seq<byte>, buf: nat, size: uint32, t: seq<Phdr>, sts: seq<Status>)
    requires |m0| == TWO32
  {
    exists lo, hi, any :: Progress(m0, m, buf, size, t, |sts|, lo, hi, any) && Summary(sts, lo, hi, any)
  }

  ghost predicate Summary(sts: seq<Status>, lo: int, hi: int, any: bool) {
    lo == Lowest(sts) && hi == Highest(sts) && any == AnyLoaded(sts)
  }

  /** One entry of the history, on a tame file: a segment is loaded ... */
  lemma LoadProgress(m0: seq<byte>, m: seq<byte>, r: seq<byte>, buf: uint32, size: uint32, t: seq<Phdr>,
                     sts: seq<Status>, st: Status, sts': seq<Status>)
    requires |m0| == |m| == |r| == TWO32 && SegmentsTame(t, buf, size) && buf + size <= TWO32 && |sts| < |t|
    requires Reached(m0, m, buf, size, t, sts)
    requires t[|sts|].Load() && SegmentOk(t[|sts|], size) && st == Loaded(t[|sts|].vaddr, t[|sts|].End())
    requires SameOutside(m, r, t[|sts|].vaddr, t[|sts|].End()) && SegmentLoaded(m, r, buf, t[|sts|])
    requires sts' == sts + [st]
    ensures Reached(m0, r, buf, size, t, sts')
  {
    var n := |sts|;
    var lo, hi, any :| Progress(m0, m, buf, size, t, n, lo, hi, any) && Summary(sts, lo, hi, any);
    ProgressGrows(m0, m, r, buf, size, t, n, lo, hi, any);
    SummaryNext(sts, st, sts');
    assert Summary(sts', if t[n].vaddr < lo then t[n].vaddr else lo, if t[n].End() > hi then t[n].End() else hi, true);
  }

  /** ... or the entry is passed over. */
  lemma SkipProgress(m0: seq<byte>, m: seq<byte>, buf: uint32, size: uint32, t: seq<Phdr>, sts: seq<Status>,
                     sts': seq<Status>)
    requires |m0| == TWO32 && |sts| < |t| && Reached(m0, m, buf, size, t, sts)
    requires !t[|sts|].Load() && sts' == sts + [Skipped]
    ensures Reached(m0, m, buf, size, t, sts')
  {
    var lo, hi, any :| Progress(m0, m, buf, size, t, |sts|, lo, hi, any) && Summary(sts, lo, hi, any);
    ProgressSkips(m0, m, buf, size, t, |sts|, lo, hi, any);
    SummaryNext(sts, Skipped, sts');
    assert Summary(sts', lo, hi, any);
  }

  lemma StepProgress(m0: seq<byte>, m: seq<byte>, r: seq<byte>, buf: uint32, size: uint32, t: seq<Phdr>,
                     sts: seq<Status>, st: Status, sts': seq<Status>, ph: nat, p: Phdr)
    requires |m0| == |m| == |r| == TWO32 && SegmentsTame(t, buf, size) && buf + size <= TWO32 && |sts| < |t|
    requires Reached(m0, m, buf, size, t, sts)
    requires PhdrAt(m, ph) == p == t[|sts|] && (p.Load() ==> Clear(p, ph, buf, size))
    requires EntryStep(m, r, buf, size, ph, st) && !st.Rejected? && sts' == sts + [st]
    ensures Reached(m0, r, buf, size, t, sts')
  {
    if st.Loaded? {
      LoadedClear(m, r, buf, size, ph, st, p);
      LoadProgress(m0, m, r, buf, size, t, sts, st, sts');
    } else {
      SkipProgress(m0, m, buf, size, t, sts, sts');
    }
  }

  lemma OneStep(m0: seq<byte>, m: seq<byte>, r: seq<byte>, buf: uint32, size: uint32, phoff: uint32, t: seq<Phdr>,
                sts: seq<Status>, st: Status, sts': seq<Status>, ph: nat)
    requires |m0| == |m| == |r| == TWO32 && TameFile(m0, buf, size, phoff, t)
    requires Reached(m0, m, buf, size, t, sts)
    requires |sts| < HalfAt(m, buf + 44) && ph == EntryAddress(phoff, buf, |sts|)
    requires EntryStep(m, r, buf, size, ph, st) && !st.Rejected? && sts' == sts + [st]
    ensures Reached(m0, r, buf, size, t, sts')
  {
    HeaderStays(m0, m, buf, size, phoff, t, |sts|);
    EntryStays(m0, m, buf, size, phoff, t, |sts|);
    StepProgress(m0, m, r, buf, size, t, sts, st, sts', ph, t[|sts|]);
  }

  lemma ReachedStart(m0: seq<byte>, buf: uint32, size: uint32, t: seq<Phdr>)
    requires |m0| == TWO32
    ensures Reached(m0, m0, buf, size, t, [])
  {
    assert Progress(m0, m0, buf, size, t, 0, NO_SEGMENT, 0, false) && Summary([], NO_SEGMENT, 0, false);
  }

  /** What the history says about entry k. */
  lemma HistoryAt(ms: seq<seq<byte>>, sts: seq<Status>, buf: nat, size: uint32, phoff: uint32, k: nat)
    requires History(ms, sts, buf, size, phoff) && k < |sts|
    ensures |ms[0]| == |ms[k]| == |ms[k + 1]| == TWO32 && k < HalfAt(ms[k], buf + 44)
    ensures EntryStep(ms[k], ms[k + 1], buf, size, EntryAddress(phoff, buf, k), sts[k])
    ensures k + 1 < |sts| ==> !sts[k].Rejected?
  {
    assert HistoryStep(ms, sts, buf, size, phoff, k);
  }

  lemma ReachedNext(ms: seq<seq<byte>>, sts: seq<Status>, buf: uint32, size: uint32, phoff: uint32,
                    t: seq<Phdr>, m0: seq<byte>, k: nat)
    requires History(ms, sts, buf, size, phoff) && |m0| == TWO32 && TameFile(m0, buf, size, phoff, t)
    requires k < |sts| && !sts[k].Rejected?
    requires Reached(m0, ms[k], buf, size, t, sts[..k])
    ensures Reached(m0, ms[k + 1], buf, size, t, sts[..k + 1])
  {
    HistoryAt(ms, sts, buf, size, phoff, k);
    assert sts[..k + 1] == sts[..k] + [sts[k]] && |sts[..k]| == k;
    OneStep(m0, ms[k], ms[k + 1], buf, size, phoff, t, sts[..k], sts[k], sts[..k + 1], EntryAddress(phoff, buf, k));
  }

  /** On a tame file the loop, as far as it got without a rejection, loaded just what the table says. */
  lemma {:induction false} HistoryProgress(ms: seq<seq<byte>>, sts: seq<Status>, buf: uint32, size: uint32,
                                           phoff: uint32, t: seq<Phdr>, k: nat)
    requires History(ms, sts, buf, size, phoff) && TameFile(ms[0], buf, size, phoff, t)
    requires k <= |sts| && forall i :: 0 <= i < k ==> !sts[i].Rejected?
    ensures Reached(ms[0], ms[k], buf, size, t, sts[..k])
  {
    if k == 0 {
      ReachedStart(ms[0], buf, size, t);
    } else {
      HistoryProgress(ms, sts, buf, size, phoff, t, k - 1);
      ReachedNext(ms, sts, buf, size, phoff, t, ms[0], k - 1);
    }
  }

  lemma AllHandled(m0: seq<byte>, m: seq<byte>, buf: nat, size: uint32, phoff: uint32, t: seq<Phdr>, n: nat,
                   lo: int, hi: int, any: bool)
    requires |m0| == |m| == TWO32 && TameFile(m0, buf, size, phoff, t)
    requires Progress(m0, m, buf, size, t, n, lo, hi, any) && HalfAt(m, buf + 44) <= n
    ensures n == |t| == FirstBad(t, size) && (any <==> Loadable(m0, buf, size))
    ensures WordAt(m, buf + 24) == EhdrAt(m0, buf).entry
  {
    HeaderStays(m0, m, buf, size, phoff, t, n);
    IsFirstBad(t, size, n);
  }

  /** A loop that ran to its end handled the whole table. */
  lemma LoopFinished(ms: seq<seq<byte>>, sts: seq<Status>, buf: uint32, size: uint32, phoff: uint32, t: seq<Phdr>)
    requires History(ms, sts, buf, size, phoff) && TameFile(ms[0], buf, size, phoff, t)
    requires HalfAt(ms[|sts|], buf + 44) <= |sts| && forall i :: 0 <= i < |sts| ==> !sts[i].Rejected?
    ensures Image(ms[0], ms[|sts|], buf, t, |t|) && Extent(t, |t|, Lowest(sts), Highest(sts), AnyLoaded(sts))
    ensures FirstBad(t, size) == |t| && (AnyLoaded(sts) <==> Loadable(ms[0], buf, size))
    ensures WordAt(ms[|sts|], buf + 24) == EhdrAt(ms[0], buf).entry
  {
    HistoryProgress(ms, sts, buf, size, phoff, t, |sts|);
    assert sts[..|sts|] == sts;
    var lo, hi, any :| Progress(ms[0], ms[|sts|], buf, size, t, |sts|, lo, hi, any) && Summary(sts, lo, hi, any);
    AllHandled(ms[0], ms[|sts|], buf, size, phoff, t, |sts|, Lowest(sts), Highest(sts), AnyLoaded(sts));
  }

  /** A rejection right after the entries with outcomes sts: the next entry is the first bad one. */
  lemma BadSegment(m0: seq<byte>, m: seq<byte>, r: seq<byte>, buf: uint32, size: uint32, phoff: uint32,
                   t: seq<Phdr>, sts: seq<Status>)
    requires |m0| == |m| == |r| == TWO32 && TameFile(m0, buf, size, phoff, t)
    requires Reached(m0, m, buf, size, t, sts) && |sts| < HalfAt(m, buf + 44)
    requires EntryStep(m, r, buf, size, EntryAddress(phoff, buf, |sts|), Rejected)
    ensures |sts| == FirstBad(t, size) < |t| && Image(m0, r, buf, t, |sts|) && !Loadable(m0, buf, size)
  {
    HeaderStays(m0, m, buf, size, phoff, t, |sts|);
    EntryStays(m0, m, buf, size, phoff, t, |sts|);
    IsFirstBad(t, size, |sts|);
  }

  lemma IsFirstBad(t: seq<Phdr>, size: uint32, n: nat)
    requires n <= |t| && forall i :: 0 <= i < n && t[i].Load() ==> SegmentOk(t[i], size)
    requires n < |t| ==> t[n].Load() && !SegmentOk(t[n], size)
    ensures FirstBad(t, size) == n
  {
    var k := FirstBad(t, size);
  }

  /** A loop that stopped did so at the first bad segment, with the segments before it loaded. */
  lemma LoopStopped(ms: seq<seq<byte>>, sts: seq<Status>, buf: uint32, size: uint32, phoff: uint32, t: seq<Phdr>)
    requires History(ms, sts, buf, size, phoff) && TameFile(ms[0], buf, size, phoff, t)
    requires |sts| > 0 && sts[|sts| - 1].Rejected?
    ensures |sts| - 1 == FirstBad(t, size) < |t| && Image(ms[0], ms[|sts|], buf, t, FirstBad(t, size))
    ensures !Loadable(ms[0], buf, size)
  {
    var k := |sts| - 1;
    forall i | 0 <= i < k ensures !sts[i].Rejected? { HistoryAt(ms, sts, buf, size, phoff, i); }
    HistoryProgress(ms, sts, buf, size, phoff, t, k);
    HistoryAt(ms, sts, buf, size, phoff, k);
    BadSegment(ms[0], ms[k], ms[k + 1], buf, size, phoff, t, sts[..k]);
  }

  // ---------------------------------------------------------------- elf_load

  /** The loop ran to its end, or stopped at a rejected entry. */
  ghost predicate Complete(ms: seq<seq<byte>>, sts: seq<Status>, buf: nat, size: uint32, phoff: uint32) {
    && History(ms, sts, buf, size, phoff)
    && (Stopped(sts) || (HalfAt(ms[|sts|], buf + 44) <= |sts| && forall i :: 0 <= i < |sts| ==> !sts[i].Rejected?))
  }

  predicate Stopped(sts: seq<Status>) { |sts| > 0 && sts[|sts| - 1].Rejected? }

  /** The answer to a loop with these outcomes that left memory m. */
  ghost predicate Answer(m: seq<byte>, buf: nat, sts: seq<Status>, out: LoadResult, code: int, res: LoadResult)
    requires |m| == TWO32
  {
    if Stopped(sts) || !AnyLoaded(sts) then code == -1 && res == out
    else code == 0 && res == LoadResult(WordAt(m, buf + 24), Lowest(sts), Highest(sts))
  }

  /** elf_load on any memory and buffer: refused before the loop with nothing changed, or the loop's history
      from the first memory to the last, and the answer to it. */
  ghost predicate Outcome(m0: seq<byte>, m: seq<byte>, buf: nat, size: uint32, out: LoadResult, code: int,
                          res: LoadResult)
    requires |m0| == |m| == TWO32
  {
    if !Admitted(m0, buf, size) then code == -1 && res == out && m == m0
    else exists ms, sts :: Complete(ms, sts, buf, size, EhdrAt(m0, buf).phoff) && ms[0] == m0 && ms[|sts|] == m
                           && Answer(m, buf, sts, out, code, res)
  }

  /** On a tame file: success exactly when the file is loadable; then memory is the image of all segments and
      nothing else changed, and the result holds the entry point and the exact bounds.  Once the checks before
      the loop have passed, memory is in any case the image of the segments before the first bad one. */
  ghost predicate TameOutcome(m0: seq<byte>, m: seq<byte>, buf: nat, size: uint32, code: int, res: LoadResult)
    requires |m0| == |m| == TWO32
  {
    var t := Table(m0, buf);
    && (code == 0 <==> Loadable(m0, buf, size))
    && (code == 0 ==> Image(m0, m, buf, t, |t|) && Extent(t, |t|, res.loadMin, res.loadMax, true)
                      && res.entry == EhdrAt(m0, buf).entry)
    && (if Admitted(m0, buf, size) then Image(m0, m, buf, t, FirstBad(t, size)) else m == m0)
  }

  lemma AnswerTame(ms: seq<seq<byte>>, sts: seq<Status>, buf: uint32, size: uint32, phoff: uint32, t: seq<Phdr>,
                   out: LoadResult, code: int, res: LoadResult)
    requires Complete(ms, sts, buf, size, phoff) && TameFile(ms[0], buf, size, phoff, t)
    requires Answer(ms[|sts|], buf, sts, out, code, res)
    ensures TameOutcome(ms[0], ms[|sts|], buf, size, code, res)
  {
    if Stopped(sts) {
      LoopStopped(ms, sts, buf, size, phoff, t);
    } else {
      LoopFinished(ms, sts, buf, size, phoff, t);
    }
  }

  /** What elf_load does on a tame file follows from what it does on any. */
  lemma OutcomeOfTame(m0: seq<byte>, m: seq<byte>, buf: uint32, size: uint32, out: LoadResult, code: int,
                      res: LoadResult)
    requires |m0| == |m| == TWO32 && Tame(m0, buf, size) && Outcome(m0, m, buf, size, out, code, res)
    ensures TameOutcome(m0, m, buf, size, code, res)
  {
    var phoff := EhdrAt(m0, buf).phoff;
    if Admitted(m0, buf, size) {
      var ms, sts :| Complete(ms, sts, buf, size, phoff) && ms[0] == m0 && ms[|sts|] == m
                     && Answer(m, buf, sts, out, code, res);
      AnswerTame(ms, sts, buf, size, phoff, Table(m0, buf), out, code, res);
    }
  }

  /** An executable whose segment has 16 bytes in the file and 32 in memory. */
  lemma BssIsTame(m0: seq<byte>, p: ProgramHeader, contents: seq<byte>)
    requires |contents| == 16 && p == ProgramHeader(1, 84, 0x40_0000, 0x40_0000, 16, 32, 6, 0)
    requires m0 == InMemory(OneSegment(p, contents))
    ensures Tame(m0, BASE, 100) && Loadable(m0, BASE, 100) && BytesAt(m0, BASE + 84, contents)
    ensures Table(m0, BASE) == [Phdr(1, 84, 0x40_0000, 16, 32)] && EhdrAt(m0, BASE).entry == 0x40_0000
  {
    OneSegmentHeld(m0, p, contents);
    OneGoodSegment(p, 100);
    LoadableExactly(m0, BASE, 100, OneEntry(32), [p]);
  }

  /** Loading it succeeds: the 16 bytes, then 16 zeros, nothing else changed, and the bounds are those of the
      segment. */
  lemma BssLoaded(m0: seq<byte>, m: seq<byte>, p: ProgramHeader, contents: seq<byte>, out: LoadResult, code: int,
                  res: LoadResult)
    requires |contents| == 16 && p == ProgramHeader(1, 84, 0x40_0000, 0x40_0000, 16, 32, 6, 0)
    requires m0 == InMemory(OneSegment(p, contents)) && |m| == TWO32
    requires Outcome(m0, m, BASE, 100, out, code, res)
    ensures code == 0 && res == LoadResult(0x40_0000, 0x40_0000, 0x40_0020)
    ensures forall i :: 0 <= i < 16 ==> m[0x40_0000 + i] == contents[i]
    ensures forall a :: 0x40_0010 <= a < 0x40_0020 ==> m[a] == 0
    ensures SameOutside(m0, m, 0x40_0000, 0x40_0020)
  {
    BssIsTame(m0, p, contents);
    OutcomeOfTame(m0, m, BASE, 100, out, code, res);
    OneImage(m0, m, Table(m0, BASE)[0], Table(m0, BASE), contents);
  }

  lemma OneImage(m0: seq<byte>, m: seq<byte>, p: Phdr, t: seq<Phdr>, contents: seq<byte>)
    requires |m0| == TWO32 && t == [p] && p == Phdr(1, 84, 0x40_0000, 16, 32)
    requires |contents| == 16 && BytesAt(m0, BASE + 84, contents) && Image(m0, m, BASE, t, 1)
    ensures forall i :: 0 <= i < 16 ==> m[0x40_0000 + i] == contents[i]
    ensures forall a :: 0x40_0010 <= a < 0x40_0020 ==> m[a] == 0
    ensures SameOutside(m0, m, 0x40_0000, 0x40_0020)
  {
    assert t[0].Load() && SegmentLoaded(m0, m, BASE, t[0]);
    forall i | 0 <= i < 16 ensures m[0x40_0000 + i] == contents[i] {
      assert At(m0, BASE + 84 + i) == contents[i];
    }
    forall a | 0 <= a < TWO32 && !(0x40_0000 <= a < 0x40_0020) ensures m[a] == m0[a] {
      assert ByteKept(m0, m, t, 1, a);
    }
  }

  lemma FilledOnce(m: seq<byte>, r: seq<byte>, r': seq<byte>, buf: nat, ph: nat, st: Status, st': Status)
    requires |m| == |r| == |r'| == TWO32 && Filled(m, r, buf, ph, st) && Filled(m, r', buf, ph, st')
    ensures r == r' && st == st'
  {
    var m1 :| |m1| == TWO32 && Filling(m, m1, r, buf, PhdrAt(m, ph), PhdrAt(m1, ph), PhdrAt(r, ph), st);
    var m1' :| |m1'| == TWO32 && Filling(m, m1', r', buf, PhdrAt(m, ph), PhdrAt(m1', ph), PhdrAt(r', ph), st');
    CopyOnce(m, m1, m1', PhdrAt(m, ph).vaddr, Wrap(buf + PhdrAt(m, ph).offset), PhdrAt(m, ph).filesz);
    FillingOnce(m, m1, r, r', buf, PhdrAt(m, ph), PhdrAt(m1, ph), PhdrAt(r, ph), PhdrAt(r', ph), st, st');
  }

  lemma FillingOnce(m: seq<byte>, m1: seq<byte>, r: seq<byte>, r': seq<byte>, buf: nat, p: Phdr, p1: Phdr, q: Phdr,
                    q': Phdr, st: Status, st': Status)
    requires Filling(m, m1, r, buf, p, p1, q, st) && Filling(m, m1, r', buf, p, p1, q', st')
    ensures r == r' && (q == q' ==> st == st')
  {
    if p1.memsz > p1.filesz { ClearOnce(m1, r, r', Wrap(p.vaddr + p1.filesz), p1.memsz - p1.filesz); }
  }

  lemma CopyOnce(m: seq<byte>, r: seq<byte>, r': seq<byte>, dst: uint32, src: uint32, n: nat)
    requires CopiedUp(m, r, dst, src, n) && CopiedUp(m, r', dst, src, n)
    ensures r == r'
  {
    forall a | 0 <= a < TWO32 ensures r[a] == r'[a] { CopyDetermined(m, r, r', dst, src, n, a); }
  }

  lemma ClearOnce(m: seq<byte>, r: seq<byte>, r': seq<byte>, dst: uint32, n: nat)
    requires ClearedUp(m, r, dst, n) && ClearedUp(m, r', dst, n)
    ensures r == r'
  {
    forall a | 0 <= a < TWO32 ensures r[a] == r'[a] { assert ClearAt(m, r, dst, n, a) && ClearAt(m, r', dst, n, a); }
  }

  lemma EntryOnce(m: seq<byte>, r: seq<byte>, r': seq<byte>, buf: nat, size: uint32, ph: nat, st: Status, st': Status)
    requires |m| == |r| == |r'| == TWO32
    requires EntryStep(m, r, buf, size, ph, st) && EntryStep(m, r', buf, size, ph, st')
    ensures r == r' && st == st'
  {
    if st.Loaded? { FilledOnce(m, r, r', buf, ph, st, st'); }
  }

  /** Two histories from the same memory agree as far as both go. */
  lemma {:induction false} HistoryOnce(ms: seq<seq<byte>>, sts: seq<Status>, ms': seq<seq<byte>>, sts': seq<Status>,
                                       buf: nat, size: uint32, phoff: uint32, k: nat)
    requires History(ms, sts, buf, size, phoff) && History(ms', sts', buf, size, phoff) && ms[0] == ms'[0]
    requires k <= |sts| && k <= |sts'|
    ensures ms[k] == ms'[k] && sts[..k] == sts'[..k]
  {
    if k > 0 {
      HistoryOnce(ms, sts, ms', sts', buf, size, phoff, k - 1);
      assert HistoryStep(ms, sts, buf, size, phoff, k - 1) && HistoryStep(ms', sts', buf, size, phoff, k - 1);
      EntryOnce(ms[k - 1], ms[k], ms'[k], buf, size, EntryAddress(phoff, buf, k - 1), sts[k - 1], sts'[k - 1]);
      assert sts[..k] == sts[..k - 1] + [sts[k - 1]] && sts'[..k] == sts'[..k - 1] + [sts'[k - 1]];
    }
  }

  /** A complete history is not a proper part of another. */
  lemma CompleteIsLongest(ms: seq<seq<byte>>, sts: seq<Status>, ms': seq<seq<byte>>, sts': seq<Status>,
                          buf: nat, size: uint32, phoff: uint32)
    requires Complete(ms, sts, buf, size, phoff) && History(ms', sts', buf, size, phoff) && ms[0] == ms'[0]
    ensures |sts'| <= |sts|
  {
    var k := |sts|;
    if k < |sts'| {
      HistoryOnce(ms, sts, ms', sts', buf, size, phoff, k);
      if Stopped(sts) {
        assert sts'[k - 1] == sts'[..k][k - 1] == sts[k - 1];
        HistoryAt(ms', sts', buf, size, phoff, k - 1);
      } else {
        HistoryAt(ms', sts', buf, size, phoff, k);
      }
    }
  }

  /** elf_load has one outcome, whatever the file. */
  lemma OutcomeIsDetermined(m0: seq<byte>, m: seq<byte>, m': seq<byte>, buf: nat, size: uint32, out: LoadResult,
                            code: int, res: LoadResult, code': int, res': LoadResult)
    requires |m0| == |m| == |m'| == TWO32
    requires Outcome(m0, m, buf, size, out, code, res) && Outcome(m0, m', buf, size, out, code', res')
    ensures m == m' && code == code' && res == res'
  {
    var phoff := EhdrAt(m0, buf).phoff;
    if Admitted(m0, buf, size) {
      var ms, sts :| Complete(ms, sts, buf, size, phoff) && ms[0] == m0 && ms[|sts|] == m
                     && Answer(m, buf, sts, out, code, res);
      var ms', sts' :| Complete(ms', sts', buf, size, phoff) && ms'[0] == m0 && ms'[|sts'|] == m'
                       && Answer(m', buf, sts', out, code', res');
      CompleteIsLongest(ms, sts, ms', sts', buf, size, phoff);
      CompleteIsLongest(ms', sts', ms, sts, buf, size, phoff);
      HistoryOnce(ms, sts, ms', sts', buf, size, phoff, |sts|);
      assert sts[..|sts|] == sts && sts'[..|sts'|] == sts';
    }
  }

  /** elf_check_header and the test of the table's end. */
  method Admit(mem: array<byte>, buf: uint32, size: uint32) returns (ok: bool, phoff: uint32)
    requires mem.Length == TWO32
    ensures ok == Admitted(mem[..], buf, size) && phoff == EhdrAt(mem[..], buf).phoff
  {
    var e := EhdrAt(mem[..], buf);
    return EHDR_SIZE <= size && HeaderOk(e) && Wrap(e.phoff + Times(e.phnum, e.phentsize)) <= size, e.phoff;
  }

  /** elf_load. */
  method ElfLoad(mem: array<byte>, buf: uint32, size: uint32, out: LoadResult) returns (code: int, res: LoadResult)
    requires mem.Length == TWO32
    modifies mem
    ensures code == 0 || (code == -1 && res == out)
    ensures !Admitted(old(mem[..]), buf, size) ==> code == -1 && mem[..] == old(mem[..])
    ensures Outcome(old(mem[..]), mem[..], buf, size, out, code, res)
    ensures Tame(old(mem[..]), buf, size) ==> TameOutcome(old(mem[..]), mem[..], buf, size, code, res)
  {
    ghost var m0 := mem[..];
    code, res := LoadFile(mem, buf, size, out);
    if Tame(m0, buf, size) { OutcomeOfTame(m0, mem[..], buf, size, out, code, res); }
  }

  method LoadFile(mem: array<byte>, buf: uint32, size: uint32, out: LoadResult) returns (code: int, res: LoadResult)
    requires mem.Length == TWO32
    modifies mem
    ensures Outcome(old(mem[..]), mem[..], buf, size, out, code, res)
  {
    var ok, phoff := Admit(mem, buf, size);
    if !ok { return -1, out; }
    var finished, loadMin, loadMax, any, ms, sts := LoadAll(mem, buf, size, phoff);
    code, res := -1, out;
    if finished && any {
      var entry := Word(mem, buf + 24);
      code, res := 0, LoadResult(entry, loadMin, loadMax);
    }
    assert Complete(ms, sts, buf, size, phoff) && Answer(mem[..], buf, sts, out, code, res);
  }
}
