/** ELF images as they are written: the records of elf.h, byte for byte, and what
    the loader makes of them. */
module ElfImage {
  import opened Wrappers
  import opened Words
  import opened Paging
  import opened Bytes
  import opened Loading

  /** A 16-bit and a 32-bit field, least significant byte first */
  function Half(w: Word): (b: seq<Byte>)
    requires w < 0x1_0000
    ensures |b| == 2
  {
    [w % 256, w / 256]
  }

  function Full(w: Word): (b: seq<Byte>)
    ensures |b| == 4
  {
    [w % 256, w / 256 % 256, w / 256 / 256 % 256, w / 256 / 256 / 256]
  }

  type Int16 = w: Word | w < 0x1_0000 witness 0

  /** Elf32_Ehdr; the first of the sixteen bytes of e_ident are spelled out. */
  datatype Ehdr = Ehdr(mag0: Byte, mag1: Byte, mag2: Byte, mag3: Byte, class32: Byte, data: Byte, identVersion: Byte,
                       rest: seq<Byte>, etype: Int16, machine: Int16, version: Word, entry: Word, phoff: Word,
                       shoff: Word, flags: Word, ehsize: Int16, phentsize: Int16, phnum: Int16, shentsize: Int16,
                       shnum: Int16, shstrndx: Int16) {
    function Ident(): (b: seq<Byte>)
      requires |rest| == 9
      ensures |b| == 16
    {
      [mag0, mag1, mag2, mag3, class32, data, identVersion] + rest
    }

    function Addresses(): (b: seq<Byte>)
      ensures |b| == 24
    {
      Half(etype) + Half(machine) + Full(version) + Full(entry) + Full(phoff) + Full(shoff) + Full(flags)
    }

    function Sizes(): (b: seq<Byte>)
      ensures |b| == 12
    {
      Half(ehsize) + Half(phentsize) + Half(phnum) + Half(shentsize) + Half(shnum) + Half(shstrndx)
    }
  }

  /** Elf32_Phdr */
  datatype Phdr = Phdr(ptype: Word, offset: Word, vaddr: Word, paddr: Word, filesz: Word, memsz: Word, flags: Word,
                       align: Word) {
    function Bytes(): (b: seq<Byte>)
      ensures |b| == 32
    {
      Full(ptype) + Full(offset) + Full(vaddr) + Full(paddr) + Full(filesz) + Full(memsz) + Full(flags) + Full(align)
    }
  }

  /** `part` is written in c at offset o. */
  predicate At(c: seq<Byte>, o: int, part: seq<Byte>) {
    0 <= o <= o + |part| <= |c| && c[o..o + |part|] == part
  }

  /** c is a file with file header h, and the program headers ps where it says. */
  predicate IsImage(c: seq<Byte>, h: Ehdr, ps: seq<Phdr>) {
    && |h.rest| == 9 && h.phnum == |ps|
    && At(c, 0, h.Ident()) && At(c, 16, h.Addresses()) && At(c, 40, h.Sizes())
    && forall n :: 0 <= n < |ps| ==> At(c, h.phoff + n * h.phentsize, ps[n].Bytes())
  }

  /** The program headers one behind the other */
  function Table(ps: seq<Phdr>): (b: seq<Byte>)
    ensures |b| == 32 * |ps|
  {
    if ps == [] then [] else Table(ps[..|ps| - 1]) + ps[|ps| - 1].Bytes()
  }

  /** A file written in the plainest order: file header, program headers, the rest */
  function Image(h: Ehdr, ps: seq<Phdr>, rest: seq<Byte>): seq<Byte>
    requires |h.rest| == 9
  {
    h.Ident() + h.Addresses() + h.Sizes() + Table(ps) + rest
  }

  lemma ImageIsImage(h: Ehdr, ps: seq<Phdr>, rest: seq<Byte>)
    requires |h.rest| == 9 && h.phoff == 52 && h.phentsize == 32 && h.phnum == |ps|
    ensures IsImage(Image(h, ps, rest), h, ps)
  {
    InOrder(h.Ident(), h.Addresses(), h.Sizes(), Table(ps), rest);
    forall n | 0 <= n < |ps| ensures At(Image(h, ps, rest), 52 + n * 32, ps[n].Bytes()) {
      InTable(h.Ident() + h.Addresses() + h.Sizes(), ps, rest, n);
    }
  }

  lemma InOrder(a: seq<Byte>, b: seq<Byte>, d: seq<Byte>, t: seq<Byte>, rest: seq<Byte>)
    ensures var c := a + b + d + t + rest; At(c, 0, a) && At(c, |a|, b) && At(c, |a| + |b|, d)
  {
    var c := a + b + d + t + rest;
    assert c[0..|c|] == c;
    assert c == [] + a + (b + d + t + rest);
    AtPart(c, 0, [], a, b + d + t + rest);
    assert c == a + b + (d + t + rest);
    AtPart(c, 0, a, b, d + t + rest);
    assert c == a + b + d + (t + rest);
    AtPart(c, 0, a + b, d, t + rest);
  }

  lemma InTable(head: seq<Byte>, ps: seq<Phdr>, rest: seq<Byte>, n: nat)
    requires n < |ps|
    ensures At(head + Table(ps) + rest, |head| + n * 32, ps[n].Bytes())
  {
    var c := head + Table(ps) + rest;
    var before, after := TableParts(ps, n);
    Regroup(head, before, ps[n].Bytes(), after, rest);
    assert c[0..|c|] == c;
    AtPart(c, 0, head + before, ps[n].Bytes(), after + rest);
  }

  lemma Regroup(head: seq<Byte>, before: seq<Byte>, part: seq<Byte>, after: seq<Byte>, rest: seq<Byte>)
    ensures head + (before + part + after) + rest == head + before + part + (after + rest)
  {
  }

  lemma {:induction false} TableParts(ps: seq<Phdr>, n: nat) returns (before: seq<Byte>, after: seq<Byte>)
    requires n < |ps|
    ensures Table(ps) == before + ps[n].Bytes() + after && |before| == 32 * n
  {
    var most := ps[..|ps| - 1];
    if n == |ps| - 1 {
      before, after := Table(most), [];
    } else {
      before, after := TableParts(most, n);
      after := after + ps[|ps| - 1].Bytes();
    }
  }

  lemma AtPart(c: seq<Byte>, o: nat, a: seq<Byte>, b: seq<Byte>, d: seq<Byte>)
    requires At(c, o, a + b + d)
    ensures At(c, o + |a|, b)
  {
    var w := a + b + d;
    forall k | 0 <= k < |b| ensures c[o + |a|..o + |a| + |b|][k] == b[k] {
      assert c[o..o + |w|][|a| + k] == w[|a| + k] == b[k];
    }
    assert c[o + |a|..o + |a| + |b|] == b;
  }

  /** Byte k of the part is byte o + k of the file. */
  lemma AtByte(c: seq<Byte>, o: nat, part: seq<Byte>, k: nat)
    requires At(c, o, part) && k < |part|
    ensures c[o + k] == part[k]
  {
    assert c[o..o + |part|][k] == c[o + k];
  }

  lemma FullReads(c: seq<Byte>, o: nat, w: Word)
    requires At(c, o, Full(w))
    ensures U32(c, o) == w
  {
    AtByte(c, o, Full(w), 0);
    AtByte(c, o, Full(w), 1);
    AtByte(c, o, Full(w), 2);
    AtByte(c, o, Full(w), 3);
    Unpacked(w);
  }

  lemma Unpacked(w: Word)
    ensures Pack(w % 256, w / 256 % 256, w / 256 / 256 % 256, w / 256 / 256 / 256) == w
  {
    var a, b, d := w / 256, w / 256 / 256, w / 256 / 256 / 256;
    assert w == w % 256 + 256 * a;
    assert a == a % 256 + 256 * b;
    assert b == b % 256 + 256 * d;
  }

  lemma HalfReads(c: seq<Byte>, o: nat, w: Int16)
    requires At(c, o, Half(w))
    ensures U16(c, o) == w
  {
    AtByte(c, o, Half(w), 0);
    AtByte(c, o, Half(w), 1);
  }

  /** What the readers of elf.c find in such a file is what was written. */
  lemma HeaderReads(c: seq<Byte>, h: Ehdr, ps: seq<Phdr>)
    requires IsImage(c, h, ps)
    ensures 52 <= |c|
    ensures IsValid(c) <==>
      h.mag0 == 0x7F && h.mag1 == 'E' as int && h.mag2 == 'L' as int && h.mag3 == 'F' as int
      && h.class32 == 1 && h.identVersion == 1
    ensures EntryOf(c) == h.entry && PhOff(c) == h.phoff && PhEntSize(c) == h.phentsize && PhNum(c) == h.phnum
  {
    IdentReads(c, h);
    AddressReads(c, h);
    SizeReads(c, h);
  }

  lemma IdentReads(c: seq<Byte>, h: Ehdr)
    requires |h.rest| == 9 && At(c, 0, h.Ident()) && |c| >= 52
    ensures IsValid(c) <==>
      h.mag0 == 0x7F && h.mag1 == 'E' as int && h.mag2 == 'L' as int && h.mag3 == 'F' as int
      && h.class32 == 1 && h.identVersion == 1
  {
    forall k | 0 <= k < 7 ensures c[k] == h.Ident()[k] {
      AtByte(c, 0, h.Ident(), k);
    }
    assert c[..4] == [c[0], c[1], c[2], c[3]];
  }

  lemma AddressReads(c: seq<Byte>, h: Ehdr)
    requires At(c, 16, h.Addresses()) && |c| >= 52
    ensures EntryOf(c) == h.entry && PhOff(c) == h.phoff
  {
    var a := Half(h.etype) + Half(h.machine) + Full(h.version);
    AtPart(c, 16, a, Full(h.entry), Full(h.phoff) + Full(h.shoff) + Full(h.flags));
    assert h.Addresses() == a + Full(h.entry) + (Full(h.phoff) + Full(h.shoff) + Full(h.flags));
    AtPart(c, 16, a + Full(h.entry), Full(h.phoff), Full(h.shoff) + Full(h.flags));
    FullReads(c, 24, h.entry);
    FullReads(c, 28, h.phoff);
  }

  lemma SizeReads(c: seq<Byte>, h: Ehdr)
    requires At(c, 40, h.Sizes()) && |c| >= 52
    ensures PhEntSize(c) == h.phentsize && PhNum(c) == h.phnum
  {
    var e := Half(h.shentsize) + Half(h.shnum) + Half(h.shstrndx);
    assert h.Sizes() == Half(h.ehsize) + Half(h.phentsize) + (Half(h.phnum) + e);
    AtPart(c, 40, Half(h.ehsize), Half(h.phentsize), Half(h.phnum) + e);
    assert h.Sizes() == Half(h.ehsize) + Half(h.phentsize) + Half(h.phnum) + e;
    AtPart(c, 40, Half(h.ehsize) + Half(h.phentsize), Half(h.phnum), e);
    HalfReads(c, 42, h.phentsize);
    HalfReads(c, 44, h.phnum);
  }

  lemma {:induction false} HeaderPlace(c: seq<Byte>, n: nat)
    requires 52 <= |c|
    ensures Header(c, n) == PhOff(c) + n * PhEntSize(c)
  {
    if n > 0 { HeaderPlace(c, n - 1); }
  }

  /** Program header n */
  lemma SegmentReads(c: seq<Byte>, h: Ehdr, ps: seq<Phdr>, n: nat)
    requires IsImage(c, h, ps) && n < |ps|
    ensures 52 <= |c| && Header(c, n) + 32 <= |c|
    ensures Seg(c, n).ptype == ps[n].ptype && Seg(c, n).offset == ps[n].offset
    ensures Seg(c, n).vaddr == ps[n].vaddr && Seg(c, n).filesz == ps[n].filesz
  {
    HeaderReads(c, h, ps);
    HeaderPlace(c, n);
    PhdrReads(c, Header(c, n), ps[n]);
  }

  lemma PhdrReads(c: seq<Byte>, o: nat, p: Phdr)
    requires At(c, o, p.Bytes())
    ensures SegmentAt(c, o) == Segment(p.ptype, p.offset, p.vaddr, p.filesz)
  {
    var e := Full(p.memsz) + Full(p.flags) + Full(p.align);
    var d := Full(p.vaddr) + Full(p.paddr) + Full(p.filesz) + e;
    assert p.Bytes() == [] + Full(p.ptype) + (Full(p.offset) + d);
    AtPart(c, o, [], Full(p.ptype), Full(p.offset) + d);
    assert p.Bytes() == Full(p.ptype) + Full(p.offset) + d;
    AtPart(c, o, Full(p.ptype), Full(p.offset), d);
    assert p.Bytes() == Full(p.ptype) + Full(p.offset) + Full(p.vaddr) + (Full(p.paddr) + Full(p.filesz) + e);
    AtPart(c, o, Full(p.ptype) + Full(p.offset), Full(p.vaddr), Full(p.paddr) + Full(p.filesz) + e);
    var b := Full(p.ptype) + Full(p.offset) + Full(p.vaddr) + Full(p.paddr);
    assert p.Bytes() == b + Full(p.filesz) + e;
    AtPart(c, o, b, Full(p.filesz), e);
    FullReads(c, o, p.ptype);
    FullReads(c, o + 4, p.offset);
    FullReads(c, o + 8, p.vaddr);
    FullReads(c, o + 16, p.filesz);
  }

  /** Header m loads bytes, and no later one loads to its page. */
  predicate LastOn(ps: seq<Phdr>, m: nat)
    requires m < |ps|
  {
    && ps[m].ptype == 1 && ps[m].filesz > 0
    && forall l :: m < l < |ps| && ps[l].ptype == 1 && ps[l].filesz > 0 ==>
         ps[l].vaddr / 4096 != ps[m].vaddr / 4096
  }

  /** Loading an image puts the bytes that a program header's record names where
      the record says: byte p_offset + k of the file at p_vaddr + k, if p_vaddr and
      p_offset agree modulo the page. */
  lemma RecordLoaded(s0: Snap, s: Snap, d: nat, c: seq<Byte>, h: Ehdr, ps: seq<Phdr>, m: nat, k: nat)
    requires IsImage(c, h, ps) && m < |ps| && LastOn(ps, m) && k < ps[m].filesz
    requires |c| >= 52 && SinglePage(c) && Sealed(LoadState(s0, s, d, c, PhNum(c)))
    ensures |s.mem| == NF && d < NF && ps[m].offset + k < |c|
    ensures PageBase(ps[m].vaddr) + ps[m].offset + k < 0x1_0000_0000
    ensures ReadVirtual(s.mem, d, PageBase(ps[m].vaddr) + ps[m].offset + k) == Some(c[ps[m].offset + k])
    ensures PageBase(ps[m].vaddr) + ps[m].offset + k == ps[m].vaddr + k <==> ps[m].vaddr % 4096 == ps[m].offset
  {
    RecordIsLast(c, h, ps, m);
    SegmentLoaded(s0, s, d, c, m, Seg(c, m), k);
  }

  lemma SegmentLoaded(s0: Snap, s: Snap, d: nat, c: seq<Byte>, m: nat, g: Segment, k: nat)
    requires SinglePage(c) && Sealed(LoadState(s0, s, d, c, PhNum(c)))
    requires m < PhNum(c) && g == Seg(c, m) && Last(c, m, PhNum(c)) && k < g.filesz
    ensures |s.mem| == NF && d < NF && g.offset + k < |c| && PageBase(g.vaddr) + g.offset + k < 0x1_0000_0000
    ensures ReadVirtual(s.mem, d, PageBase(g.vaddr) + g.offset + k) == Some(c[g.offset + k])
    ensures PageBase(g.vaddr) + g.offset + k == g.vaddr + k <==> g.vaddr % 4096 == g.offset
  {
    Unseal(LoadState(s0, s, d, c, PhNum(c)));
    LoadedBytes(s0, s, d, c, m, g, k);
  }

  lemma RecordIsLast(c: seq<Byte>, h: Ehdr, ps: seq<Phdr>, m: nat)
    requires IsImage(c, h, ps) && m < |ps| && LastOn(ps, m) && SinglePage(c)
    ensures m < PhNum(c) && Last(c, m, PhNum(c))
    ensures Seg(c, m).offset == ps[m].offset && Seg(c, m).vaddr == ps[m].vaddr && Seg(c, m).filesz == ps[m].filesz
  {
    HeaderReads(c, h, ps);
    forall l | 0 <= l < |ps|
      ensures Seg(c, l).Loads() <==> ps[l].ptype == 1 && ps[l].filesz > 0
      ensures Page(Seg(c, l).vaddr) == ps[l].vaddr / 4096
    {
      SegmentReads(c, h, ps, l);
    }
    SegmentReads(c, h, ps, m);
  }
}
