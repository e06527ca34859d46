/** The ELF loader on every byte string (kernel/app.c:4370-4597, kernel/app.c:4786-4812, the 64-bit
    forms): every index into the file and into the image is proved in range, addresses are 64-bit and
    wrap, and the image is a function of the file and of where it will run. */
module Elf {
  import opened Machine

  const TWO64: nat := 0x1_0000_0000_0000_0000
  const TWO32: nat := 0x1_0000_0000
  const MAX_IMAGE: nat := 0x400_0000
  const EHDR: nat := 64
  const PHDR: nat := 56
  const DYN: nat := 16
  const RELA: nat := 24
  const SYM: nat := 24
  const PT_LOAD: nat := 1
  const PT_DYNAMIC: nat := 2
  const PT_INTERP: nat := 3

  // ---- little-endian fields --------------------------------------------------------------------------------

  function Read16(b: seq<u8>, at: nat): nat
    requires at + 2 <= |b|
  {
    b[at] + 0x100 * (b[at + 1] as int)
  }

  function Read32(b: seq<u8>, at: nat): nat
    requires at + 4 <= |b|
  {
    Read16(b, at) + 0x1_0000 * Read16(b, at + 2)
  }

  function Read64(b: seq<u8>, at: nat): (v: nat)
    requires at + 8 <= |b|
    ensures v < TWO64
  {
    Read32(b, at) + TWO32 * Read32(b, at + 4)
  }

  /** The file with n bytes of v written at `at`, the least significant first. */
  function Write(b: seq<u8>, at: nat, v: nat, n: nat): (r: seq<u8>)
    requires at + n <= |b|
    ensures |r| == |b| && forall i :: 0 <= i < |b| && !(at <= i < at + n) ==> r[i] == b[i]
    decreases n
  {
    if n == 0 then b else Write(b[at := v % 0x100], at + 1, v / 0x100, n - 1)
  }

  // ---- headers ------------------------------------------------------------------------------------------------

  datatype Phdr = Phdr(kind: nat, flags: nat, offset: nat, vaddr: nat, filesz: nat, memsz: nat)

  function PhOff(f: seq<u8>): nat
    requires |f| >= EHDR
  {
    Read64(f, 32)
  }

  function PhNum(f: seq<u8>): nat
    requires |f| >= EHDR
  {
    Read16(f, 56)
  }

  function EntryPoint(f: seq<u8>): nat
    requires |f| >= EHDR
  {
    Read64(f, 24)
  }

  /** The file header's checks. */
  predicate HeaderOk(f: seq<u8>) {
    && |f| >= EHDR
    && f[0] == 0x7f && f[1] == 0x45 && f[2] == 0x4c && f[3] == 0x46
    && f[4] == 2 && f[5] == 1 && f[6] == 1 && Read32(f, 20) == 1
    && Read16(f, 18) == 62 && Read16(f, 16) == 3 && Read16(f, 52) == EHDR && Read16(f, 54) == PHDR
    && PhNum(f) > 0 && EHDR <= PhOff(f) <= |f| && PhNum(f) <= (|f| - PhOff(f)) / PHDR
  }

  /** Every program header lies in the file. */
  lemma HeadersInFile(f: seq<u8>, i: nat)
    requires HeaderOk(f) && i < PhNum(f)
    ensures PhOff(f) + i * PHDR + PHDR <= |f|
  {
    var n := (|f| - PhOff(f)) / PHDR;
    assert PHDR * n <= |f| - PhOff(f);
    assert i + 1 <= n;
  }

  function Header(f: seq<u8>, i: nat): Phdr
    requires HeaderOk(f) && i < PhNum(f)
  {
    HeadersInFile(f, i);
    var at := PhOff(f) + i * PHDR;
    Phdr(Read32(f, at), Read32(f, at + 4), Read64(f, at + 8), Read64(f, at + 16), Read64(f, at + 32),
        Read64(f, at + 40))
  }

  predicate Loads(p: Phdr) {
    p.kind == PT_LOAD && p.memsz > 0
  }

  /** One header's checks in the first pass. */
  predicate SegmentOk(p: Phdr, size: nat) {
    && p.kind != PT_INTERP
    && (p.kind == PT_LOAD && p.memsz == 0 ==> p.filesz == 0)
    && (Loads(p) ==>
        p.offset <= size && p.filesz <= size - p.offset && p.filesz <= p.memsz && p.memsz <= TWO64 - 1 - p.vaddr)
  }

  /** The lowest and the highest address of the first n headers' segments. */
  function Low(f: seq<u8>, n: nat): nat
    requires HeaderOk(f) && n <= PhNum(f)
  {
    if n == 0 then TWO64 - 1
    else
      var lo, p := Low(f, n - 1), Header(f, n - 1);
      if Loads(p) && p.vaddr < lo then p.vaddr else lo
  }

  function High(f: seq<u8>, n: nat): nat
    requires HeaderOk(f) && n <= PhNum(f)
  {
    if n == 0 then 0
    else
      var hi, p := High(f, n - 1), Header(f, n - 1);
      if Loads(p) && p.vaddr + p.memsz > hi then p.vaddr + p.memsz else hi
  }

  predicate Executes(p: Phdr, entry: nat) {
    Loads(p) && p.flags % 2 == 1 && p.vaddr <= entry && entry - p.vaddr < p.memsz
  }

  function PageDown(x: nat): nat {
    x - x % 4096
  }

  /** The dynamic table's checks, given the span. */
  predicate DynamicOk(f: seq<u8>, p: Phdr, lo: nat, hi: nat)
    requires HeaderOk(f)
  {
    && p.offset <= |f| && p.filesz <= |f| - p.offset && p.filesz <= p.memsz && p.memsz >= DYN && p.memsz % DYN == 0
    && lo <= p.vaddr <= hi && p.memsz <= hi - p.vaddr
    && exists j :: 0 <= j < PhNum(f) && Covers(Header(f, j), p)
  }

  predicate Covers(q: Phdr, p: Phdr) {
    q.kind == PT_LOAD && p.vaddr >= q.vaddr && p.vaddr - q.vaddr <= q.memsz && p.memsz <= q.memsz - (p.vaddr - q.vaddr)
  }

  /** What elf_layout accepts. */
  ghost predicate Loadable(f: seq<u8>) {
    && HeaderOk(f)
    && (var n := PhNum(f);
        var hi := High(f, n);
        var lo := PageDown(Low(f, n));
        && (forall i :: 0 <= i < n ==> SegmentOk(Header(f, i), |f|))
        && (exists i :: 0 <= i < n && Executes(Header(f, i), EntryPoint(f)))
        && hi > Low(f, n) && hi - lo <= MAX_IMAGE
        && (forall i :: 0 <= i < n && Header(f, i).kind == PT_DYNAMIC ==> DynamicOk(f, Header(f, i), lo, hi))
        && (forall i, j :: 0 <= i < j < n ==> Header(f, i).kind != PT_DYNAMIC || Header(f, j).kind != PT_DYNAMIC))
  }

  lemma {:induction false} SpanCovers(f: seq<u8>, n: nat, i: nat)
    requires HeaderOk(f) && i < n <= PhNum(f) && Loads(Header(f, i))
    ensures Low(f, n) <= Header(f, i).vaddr && Header(f, i).vaddr + Header(f, i).memsz <= High(f, n)
  {
    hide Header;
    if i < n - 1 { SpanCovers(f, n - 1, i); }
  }

  /** The first pass over the program headers. */
  method FirstPass(f: seq<u8>) returns (ok: bool, lo: nat, hi: nat, entryOk: bool)
    requires HeaderOk(f)
    ensures ok <==> forall i :: 0 <= i < PhNum(f) ==> SegmentOk(Header(f, i), |f|)
    ensures ok ==> lo == Low(f, PhNum(f)) && hi == High(f, PhNum(f))
    ensures ok ==> (entryOk <==> exists i :: 0 <= i < PhNum(f) && Executes(Header(f, i), EntryPoint(f)))
  {
    hide Header;
    lo, hi, entryOk := TWO64 - 1, 0, false;
    var i := 0;
    while i < PhNum(f)
      invariant 0 <= i <= PhNum(f)
      invariant forall k :: 0 <= k < i ==> SegmentOk(Header(f, k), |f|)
      invariant lo == Low(f, i) && hi == High(f, i)
      invariant entryOk <==> exists k :: 0 <= k < i && Executes(Header(f, k), EntryPoint(f))
    {
      var p := Header(f, i);
      if p.kind == PT_INTERP {
        return false, 0, 0, false;
      }
      if p.kind != PT_LOAD || p.memsz == 0 {
        if p.kind == PT_LOAD && p.filesz != 0 {
          return false, 0, 0, false;
        }
      } else {
        if p.offset > |f| || p.filesz > |f| - p.offset || p.filesz > p.memsz || p.memsz > TWO64 - 1 - p.vaddr {
          return false, 0, 0, false;
        }
        var end := p.vaddr + p.memsz;
        if p.vaddr < lo { lo := p.vaddr; }
        if end > hi { hi := end; }
        if p.flags % 2 == 1 && EntryPoint(f) >= p.vaddr && EntryPoint(f) - p.vaddr < p.memsz { entryOk := true; }
      }
      i := i + 1;
    }
    ok := true;
  }

  method Covered(f: seq<u8>, p: Phdr) returns (covered: bool)
    requires HeaderOk(f)
    ensures covered <==> exists j :: 0 <= j < PhNum(f) && Covers(Header(f, j), p)
  {
    hide Header;
    covered := false;
    var j := 0;
    while j < PhNum(f)
      invariant 0 <= j <= PhNum(f)
      invariant covered <==> exists k :: 0 <= k < j && Covers(Header(f, k), p)
    {
      var q := Header(f, j);
      if q.kind == PT_LOAD && p.vaddr >= q.vaddr && p.vaddr - q.vaddr <= q.memsz
          && p.memsz <= q.memsz - (p.vaddr - q.vaddr) {
        covered := true;
      }
      j := j + 1;
    }
  }

  /** The second pass: at most one dynamic table, inside the span and inside a segment. */
  method SecondPass(f: seq<u8>, lo: nat, hi: nat) returns (ok: bool)
    requires HeaderOk(f)
    ensures ok <==>
      && (forall i :: 0 <= i < PhNum(f) && Header(f, i).kind == PT_DYNAMIC ==> DynamicOk(f, Header(f, i), lo, hi))
      && (forall i, j :: 0 <= i < j < PhNum(f) ==> Header(f, i).kind != PT_DYNAMIC || Header(f, j).kind != PT_DYNAMIC)
  {
    hide Header;
    var dynamics := 0;
    ghost var seen := 0;
    var i := 0;
    while i < PhNum(f)
      invariant 0 <= i <= PhNum(f) && 0 <= dynamics <= 1
      invariant dynamics == 1 ==> 0 <= seen < i && Header(f, seen).kind == PT_DYNAMIC
      invariant forall k ::
        0 <= k < i && Header(f, k).kind == PT_DYNAMIC ==>
        dynamics == 1 && k == seen && DynamicOk(f, Header(f, k), lo, hi)
    {
      var p := Header(f, i);
      if p.kind == PT_DYNAMIC {
        dynamics := dynamics + 1;
        if dynamics > 1 || p.offset > |f| || p.filesz > |f| - p.offset || p.filesz > p.memsz || p.memsz < DYN
            || p.memsz % DYN != 0
           || p.vaddr < lo || p.vaddr > hi || p.memsz > hi - p.vaddr {
          return false;
        }
        var covered := Covered(f, p);
        if !covered {
          return false;
        }
        seen := i;
      }
      i := i + 1;
    }
    ok := true;
  }

  /** elf_layout. */
  method Layout(f: seq<u8>) returns (ok: bool, lo: nat, hi: nat)
    ensures ok <==> Loadable(f)
    ensures ok ==> lo == PageDown(Low(f, PhNum(f))) && hi == High(f, PhNum(f))
  {
    hide Header;
    if !HeaderOk(f) {
      return false, 0, 0;
    }
    var fine, l, h, entryOk := FirstPass(f);
    if !fine || h <= l || !entryOk {
      return false, 0, 0;
    }
    lo, hi := l - l % 4096, h;
    if hi - lo > MAX_IMAGE {
      return false, 0, 0;
    }
    ok := SecondPass(f, lo, hi);
  }

  /** Sizing and loading use the same layout: elf_span is the span the loader fills, rounded up to pages. */
  method Span(f: seq<u8>) returns (span: nat)
    ensures span == if Loadable(f) then (High(f, PhNum(f)) - PageDown(Low(f, PhNum(f))) + 4095) / 4096 * 4096 else 0
  {
    hide Loadable;
    hide Low;
    hide High;
    var ok, lo, hi := Layout(f);
    if !ok {
      return 0;
    }
    SpanPositive(f);
    span := (hi - lo + 4095) / 4096 * 4096;
  }

  lemma SpanPositive(f: seq<u8>)
    requires Loadable(f)
    ensures HeaderOk(f) && PageDown(Low(f, PhNum(f))) < High(f, PhNum(f))
  {
    hide Header;
  }

  // ---- the image -------------------------------------------------------------------------------------------------

  /** elf_in_image. */
  predicate InImage(at: nat, n: nat, lo: nat, span: nat) {
    at >= lo && at - lo <= span && n <= span - (at - lo)
  }

  function Start(f: seq<u8>): nat
    requires HeaderOk(f)
  {
    PageDown(Low(f, PhNum(f)))
  }

  ghost function Size(f: seq<u8>): nat
    requires Loadable(f)
  {
    SpanPositive(f);
    High(f, PhNum(f)) - Start(f)
  }

  /** A loaded segment lies in the file and in the image. */
  lemma SegmentFits(f: seq<u8>, i: nat)
    requires Loadable(f) && i < PhNum(f) && Loads(Header(f, i))
    ensures var p := Header(f, i);
            p.offset + p.filesz <= |f| && Start(f) <= p.vaddr && p.vaddr - Start(f) + p.filesz <= Size(f)
  {
    hide Header;
    SpanCovers(f, PhNum(f), i);
    assert SegmentOk(Header(f, i), |f|);
  }

  function Overlay(img: seq<u8>, at: nat, b: seq<u8>): (r: seq<u8>)
    requires at + |b| <= |img|
    ensures |r| == |img|
  {
    img[..at] + b + img[at + |b|..]
  }

  /** Zeros, then the first n headers' segments one over the other. */
  ghost function Segments(f: seq<u8>, n: nat): (img: seq<u8>)
    requires Loadable(f) && n <= PhNum(f)
    ensures |img| == Size(f)
  {
    if n == 0 then seq(Size(f), i => 0)
    else
      var img, p := Segments(f, n - 1), Header(f, n - 1);
      if Loads(p) then (SegmentFits(f, n - 1); Overlay(img, p.vaddr - Start(f), f[p.offset..p.offset + p.filesz]))
          else img
  }

  /** What the dynamic table names. */
  datatype Tabs = Tabs(rel: u64, relsz: u64, rela: u64, relasz: u64, relaent: u64, symtab: u64, syment: u64,
      strtab: u64,
                       jmprel: u64, pltrelsz: u64, pltrel: u64)

  const NO_TABS: Tabs := Tabs(0, 0, 0, 0, 0, 0, 0, 0, 0, 0, 0)

  function Noted(t: Tabs, tag: nat, v: u64): Tabs {
    match tag
    case 7 => t.(rela := v)
    case 8 => t.(relasz := v)
    case 9 => t.(relaent := v)
    case 17 => t.(rel := v)
    case 18 => t.(relsz := v)
    case 6 => t.(symtab := v)
    case 11 => t.(syment := v)
    case 5 => t.(strtab := v)
    case 23 => t.(jmprel := v)
    case 2 => t.(pltrelsz := v)
    case 20 => t.(pltrel := v)
    case _ => t
  }

  /** The table read entry by entry up to its end mark; None without one. */
  datatype Option<T> = None | Some(value: T)

  function Scan(img: seq<u8>, at: nat, size: nat, off: nat, t: Tabs): Option<Tabs>
    requires at + size <= |img| && size % DYN == 0 && off % DYN == 0 && off <= size
    decreases size - off
  {
    if off == size then None
    else
      EntryFits(size, off);
      var tag := Read64(img, at + off);
      if tag == 0 then Some(t) else Scan(img, at, size, off + DYN, Noted(t, tag, Read64(img, at + off + 8)))
  }

  lemma EntryFits(size: nat, off: nat)
    requires size % DYN == 0 && off % DYN == 0 && off < size
    ensures off + DYN <= size && (off + DYN) % DYN == 0
  {
    assert size == DYN * (size / DYN) && off == DYN * (off / DYN);
    assert off / DYN + 1 <= size / DYN;
  }

  predicate TabsOk(t: Tabs) {
    && t.rel == 0 && t.relsz == 0 && (t.syment == 0 || t.syment == SYM)
    && (t.rela == 0 || t.relaent == 0 || t.relaent == RELA) && (t.relasz == 0 || t.rela != 0)
    && (t.pltrelsz == 0 || (t.jmprel != 0 && t.pltrel == 7))
  }

  // ---- relocations ------------------------------------------------------------------------------------------------

  datatype Outcome = Fine(img: seq<u8>) | Damaged | Missing(name: seq<u8>) | Unsupported(kind: nat)

  /** Where the image starts, where it will run, and its symbols. */
  datatype Env = Env(lo: nat, run: nat, symtab: u64, strtab: u64)

  /** The bytes of a name up to its end, the image's end, or the room for it. */
  function NameFrom(img: seq<u8>, at: nat, room: nat): (n: seq<u8>)
    requires at <= |img|
    ensures |n| <= room && at + |n| <= |img| && forall i :: 0 <= i < |n| ==> n[i] == img[at + i] && n[i] != 0
    decreases room
  {
    if room == 0 || at == |img| || img[at] == 0 then [] else [img[at]] + NameFrom(img, at + 1, room - 1)
  }

  const UNNAMED: seq<u8> := [0x61, 0x20, 0x6d, 0x69, 0x73, 0x73, 0x69, 0x6e, 0x67, 0x20, 0x66, 0x75, 0x6e, 0x63,
      0x74, 0x69, 0x6f, 0x6e]

  function SymbolName(img: seq<u8>, e: Env, index: nat): seq<u8> {
    if e.strtab == 0 || index > TWO64 - 1 - e.strtab || !InImage(e.strtab + index, 1, e.lo, |img|) then UNNAMED
    else NameFrom(img, e.strtab + index - e.lo, 63)
  }

  /** One relocation entry at offset `at` of the image. */
  function Relocate(img: seq<u8>, e: Env, at: nat): (r: Outcome)
    requires at + RELA <= |img|
    ensures r.Fine? ==> |r.img| == |img|
  {
    var offset, info, addend := Read64(img, at), Read64(img, at + 8), Read64(img, at + 16);
    var kind, si := info % TWO32, info / TWO32;
    if kind == 0 then Fine(img)
    else if !InImage(offset, if kind == 2 then 4 else 8, e.lo, |img|) then Damaged
    else if kind == 8 then Fine(Write(img, offset - e.lo, (e.run + addend) % TWO64, 8))
    else if e.symtab == 0 || si > (TWO64 - 1 - e.symtab) / SYM then Damaged
    else
      var sa := e.symtab + si * SYM;
      if !InImage(sa, SYM, e.lo, |img|) then Damaged
      else if Read16(img, sa - e.lo + 6) == 0 then Missing(SymbolName(img, e, Read32(img, sa - e.lo)))
      else
        var s := (e.run + Read64(img, sa - e.lo + 8)) % TWO64;
        if kind == 1 then Fine(Write(img, offset - e.lo, (s + addend) % TWO64, 8))
        else if kind == 6 || kind == 7 then Fine(Write(img, offset - e.lo, s, 8))
        else if kind == 2 then Fine(Write(img, offset - e.lo, (s + addend - (e.run + offset)) % TWO32, 4))
        else Unsupported(kind)
  }

  /** A table's entries from offset o on; a relocation may overwrite the table being walked. */
  function Table(img: seq<u8>, e: Env, at: nat, size: nat, o: nat): (r: Outcome)
    requires at + size <= |img| && size % RELA == 0 && o % RELA == 0 && o <= size
    ensures r.Fine? ==> |r.img| == |img|
    decreases size - o
  {
    hide Relocate;
    if o == size then Fine(img)
    else
      RelaFits(size, o);
      var r := Relocate(img, e, at + o);
      if r.Fine? then (SameSize(img, e, at + o); Table(r.img, e, at, size, o + RELA)) else r
  }

  lemma SameSize(img: seq<u8>, e: Env, at: nat)
    requires at + RELA <= |img|
    ensures Relocate(img, e, at).Fine? ==> |Relocate(img, e, at).img| == |img|
  {}

  lemma RelaFits(size: nat, o: nat)
    requires size % RELA == 0 && o % RELA == 0 && o < size
    ensures o + RELA <= size && (o + RELA) % RELA == 0
  {
    assert size == RELA * (size / RELA) && o == RELA * (o / RELA);
    assert o / RELA + 1 <= size / RELA;
  }

  /** A relocation table named by address and size; address 0 is no table. */
  function WholeTable(img: seq<u8>, e: Env, addr: nat, size: nat): (r: Outcome)
    ensures r.Fine? ==> |r.img| == |img|
  {
    hide Table;
    if addr == 0 then Fine(img)
    else if size % RELA != 0 || !InImage(addr, size, e.lo, |img|) then Damaged
    else (TableSize(img, e, addr - e.lo, size); Table(img, e, addr - e.lo, size, 0))
  }

  lemma TableSize(img: seq<u8>, e: Env, at: nat, size: nat)
    requires at + size <= |img| && size % RELA == 0
    ensures Table(img, e, at, size, 0).Fine? ==> |Table(img, e, at, size, 0).img| == |img|
  {}

  /** Both tables, the second on what the first left. */
  function Relocated(img: seq<u8>, t: Tabs, lo: nat, run: nat): Outcome {
    hide WholeTable;
    if !TabsOk(t) then Damaged
    else
      var e := Env(lo, run, t.symtab, t.strtab);
      var r := WholeTable(img, e, t.rela, t.relasz);
      if !r.Fine? then r else WholeTable(r.img, e, if t.pltrel == 7 then t.jmprel else 0, t.pltrelsz)
  }

  /** The dynamic table among the first n headers, if there is one. */
  function DynamicIn(f: seq<u8>, n: nat): Option<Phdr>
    requires HeaderOk(f) && n <= PhNum(f)
  {
    hide Header;
    if n == 0 then None else if Header(f, n - 1).kind == PT_DYNAMIC then Some(Header(f, n - 1)) else DynamicIn(f, n - 1)
  }

  lemma {:induction false} DynamicFits(f: seq<u8>, n: nat)
    requires Loadable(f) && n <= PhNum(f) && DynamicIn(f, n).Some?
    ensures var p := DynamicIn(f, n).value;
            p.vaddr >= Start(f) && p.vaddr - Start(f) + p.memsz <= Size(f) && p.memsz % DYN == 0
  {
    hide Header;
    if Header(f, n - 1).kind == PT_DYNAMIC {
      assert DynamicOk(f, Header(f, n - 1), Start(f), High(f, PhNum(f)));
    } else {
      DynamicFits(f, n - 1);
    }
  }

  /** What the loader makes of a file that will run at `run` + its own addresses: nothing here depends on
      where the image is built. */
  ghost function ImageOf(f: seq<u8>, run: nat): Outcome
    requires Loadable(f)
  {
    hide Header;
    hide Segments;
    hide DynamicIn;
    hide Relocated;
    hide Scan;
    hide Size;
    var img, d := Segments(f, PhNum(f)), DynamicIn(f, PhNum(f));
    if d.None? then Fine(img)
    else
      DynamicFits(f, PhNum(f));
      ImageSize(f);
      var t := Scan(img, d.value.vaddr - Start(f), d.value.memsz, 0, NO_TABS);
      if t.None? then Damaged else Relocated(img, t.value, Start(f), run)
  }

  lemma ImageSize(f: seq<u8>)
    requires Loadable(f)
    ensures |Segments(f, PhNum(f))| == Size(f)
  {}

  /** The image's pieces. */
  lemma ImageParts(f: seq<u8>, run: nat)
    requires Loadable(f)
    ensures |Segments(f, PhNum(f))| == Size(f)
    ensures DynamicIn(f, PhNum(f)).None? ==> ImageOf(f, run) == Fine(Segments(f, PhNum(f)))
    ensures DynamicIn(f, PhNum(f)).Some? ==>
      (var d := DynamicIn(f, PhNum(f)).value;
       d.vaddr >= Start(f) && d.vaddr - Start(f) + d.memsz <= Size(f) && d.memsz % DYN == 0
       && (var t := Scan(Segments(f, PhNum(f)), d.vaddr - Start(f), d.memsz, 0, NO_TABS);
           ImageOf(f, run) == if t.None? then Damaged else Relocated(Segments(f, PhNum(f)), t.value, Start(f), run)))
  {
    hide Header;
    hide Segments;
    hide DynamicIn;
    hide Relocated;
    hide Scan;
    hide Size;
    ImageSize(f);
    if DynamicIn(f, PhNum(f)).Some? { DynamicFits(f, PhNum(f)); }
  }

  // ---- the loader, in place -----------------------------------------------------------------------------------------

  /** memcpy of the n low bytes of v. */
  method WriteInto(image: array<u8>, at: nat, v: nat, n: nat)
    requires at + n <= image.Length
    modifies image
    ensures image[..] == Write(old(image[..]), at, v, n)
  {
    ghost var was := image[..];
    var i, w := 0, v;
    while i < n
      invariant 0 <= i <= n
      invariant Write(image[..], at + i, w, n - i) == Write(was, at, v, n)
    {
      ghost var mid := image[..];
      image[at + i] := w % 0x100;
      assert image[..] == mid[at + i := w % 0x100];
      w := w / 0x100;
      i := i + 1;
    }
  }

  /** What one entry led to; the image itself is changed in place. */
  datatype Verdict = Ok | IsDamaged | IsMissing(name: seq<u8>) | IsUnsupported(kind: nat)

  /** The verdict and the image stand for an outcome. */
  ghost predicate Matches(v: Verdict, img: seq<u8>, r: Outcome) {
    match v
    case Ok => r == Fine(img)
    case IsDamaged => r == Damaged
    case IsMissing(name) => r == Missing(name)
    case IsUnsupported(kind) => r == Unsupported(kind)
  }

  /** The body of the relocation loop. */
  method RelocateInPlace(image: array<u8>, e: Env, at: nat) returns (v: Verdict)
    requires at + RELA <= image.Length
    modifies image
    ensures Matches(v, image[..], Relocate(old(image[..]), e, at))
  {
    hide Write;
    hide Read64;
    hide Read32;
    hide Read16;
    hide SymbolName;
    var img := image[..];
    var offset, info, addend := Read64(img, at), Read64(img, at + 8), Read64(img, at + 16);
    var kind, si := info % TWO32, info / TWO32;
    if kind == 0 { return Ok; }
    if !InImage(offset, if kind == 2 then 4 else 8, e.lo, image.Length) { return IsDamaged; }
    if kind == 8 {
      WriteInto(image, offset - e.lo, (e.run + addend) % TWO64, 8);
      return Ok;
    }
    if e.symtab == 0 || si > (TWO64 - 1 - e.symtab) / SYM { return IsDamaged; }
    var sa := e.symtab + si * SYM;
    if !InImage(sa, SYM, e.lo, image.Length) { return IsDamaged; }
    if Read16(img, sa - e.lo + 6) == 0 {
      return IsMissing(SymbolName(img, e, Read32(img, sa - e.lo)));
    }
    var s := (e.run + Read64(img, sa - e.lo + 8)) % TWO64;
    if kind == 1 {
      WriteInto(image, offset - e.lo, (s + addend) % TWO64, 8);
    } else if kind == 6 || kind == 7 {
      WriteInto(image, offset - e.lo, s, 8);
    } else if kind == 2 {
      WriteInto(image, offset - e.lo, (s + addend - (e.run + offset)) % TWO32, 4);
    } else {
      return IsUnsupported(kind);
    }
    v := Ok;
  }

  /** One relocation table. */
  method WalkTable(image: array<u8>, e: Env, addr: u64, size: u64) returns (v: Verdict)
    modifies image
    ensures Matches(v, image[..], WholeTable(old(image[..]), e, addr, size))
  {
    hide Relocate;
    if addr == 0 { return Ok; }
    if size % RELA != 0 || !InImage(addr, size, e.lo, image.Length) { return IsDamaged; }
    var at := addr - e.lo;
    ghost var goal := Table(image[..], e, at, size, 0);
    var o := 0;
    while o < size
      invariant 0 <= o <= size && o % RELA == 0
      invariant Table(image[..], e, at, size, o) == goal
    {
      RelaFits(size, o);
      v := RelocateInPlace(image, e, at + o);
      if v != Ok { return; }
      o := o + RELA;
    }
    v := Ok;
  }

  /** The dynamic table's scan. */
  method ScanTable(image: array<u8>, at: nat, size: nat) returns (t: Option<Tabs>)
    requires at + size <= image.Length && size % DYN == 0
    ensures t == Scan(image[..], at, size, 0, NO_TABS)
  {
    hide Noted;
    hide Read64;
    var tabs, off := NO_TABS, 0;
    while off < size
      invariant 0 <= off <= size && off % DYN == 0
      invariant Scan(image[..], at, size, off, tabs) == Scan(image[..], at, size, 0, NO_TABS)
    {
      EntryFits(size, off);
      var tag := Read64(image[..], at + off);
      if tag == 0 { return Some(tabs); }
      tabs := Noted(tabs, tag, Read64(image[..], at + off + 8));
      off := off + DYN;
    }
    t := None;
  }

  /** The segments copied in, and the dynamic table found. */
  method CopySegments(f: seq<u8>, image: array<u8>) returns (d: Option<Phdr>)
    requires Loadable(f) && image.Length == Size(f) && forall i :: 0 <= i < image.Length ==> image[i] == 0
    modifies image
    ensures image[..] == Segments(f, PhNum(f)) && d == DynamicIn(f, PhNum(f))
  {
    hide Loadable;
    hide Header;
    hide Size;
    hide Low;
    hide High;
    IsHeaderOk(f);
    d := None;
    var i := 0;
    assert image[..] == Segments(f, 0);
    while i < PhNum(f)
      invariant 0 <= i <= PhNum(f)
      invariant image[..] == Segments(f, i) && d == DynamicIn(f, i)
    {
      var p := Header(f, i);
      if Loads(p) {
        SegmentFits(f, i);
        CopyInto(image, p.vaddr - Start(f), f[p.offset..p.offset + p.filesz]);
      }
      if p.kind == PT_DYNAMIC { d := Some(p); }
      i := i + 1;
    }
  }

  lemma IsHeaderOk(f: seq<u8>)
    requires Loadable(f)
    ensures HeaderOk(f)
  {}

  method CopyInto(image: array<u8>, at: nat, b: seq<u8>)
    requires at + |b| <= image.Length
    modifies image
    ensures image[..] == Overlay(old(image[..]), at, b)
  {
    ghost var was := image[..];
    forall k | 0 <= k < |b| { image[at + k] := b[k]; }
    assert image[..] == Overlay(was, at, b);
  }

  /** load_elf: the image built at address `mem`, to run at `runAt` or, if that is 0, where it is built. */
  method LoadElf(f: seq<u8>, mem: u64, runAt: u64) returns (rc: int, image: array<u8>, run: nat)
    ensures fresh(image)
    ensures rc == 0 || rc == -8
    ensures rc == 0 ==> Loadable(f)
    ensures Loadable(f) ==> run == ((if runAt != 0 then runAt else mem) - Start(f)) % TWO64
    ensures Loadable(f) ==> (rc == 0 <==> ImageOf(f, run).Fine?)
    ensures rc == 0 ==> ImageOf(f, run) == Fine(image[..])
  {
    hide Loadable;
    hide Low;
    hide High;
    hide Segments;
    hide DynamicIn;
    hide Scan;
    hide ImageOf;
    hide Header;
    hide Relocated;
    var ok, lo, hi := Layout(f);
    run := 0;
    if !ok {
      image := new u8[0];
      return -8, image, 0;
    }
    IsHeaderOk(f);
    SpanPositive(f);
    run := ((if runAt != 0 then runAt else mem) - lo) % TWO64;
    image := new u8[hi - lo](_ => 0);
    var d := CopySegments(f, image);
    ImageParts(f, run);
    if d.None? {
      return 0, image, run;
    }
    DynamicFits(f, PhNum(f));
    var t := ScanTable(image, d.value.vaddr - lo, d.value.memsz);
    if t.None? {
      return -8, image, run;
    }
    var v := RelocateAll(image, t.value, lo, run);
    rc := if v == Ok then 0 else -8;
  }

  method RelocateAll(image: array<u8>, t: Tabs, lo: nat, run: nat) returns (v: Verdict)
    modifies image
    ensures Matches(v, image[..], Relocated(old(image[..]), t, lo, run))
  {
    hide WholeTable;
    if !TabsOk(t) { return IsDamaged; }
    var e := Env(lo, run, t.symtab, t.strtab);
    v := WalkTable(image, e, t.rela, t.relasz);
    if v != Ok { return; }
    v := WalkTable(image, e, if t.pltrel == 7 then t.jmprel else 0, t.pltrelsz);
  }

  /** An image built in scratch memory for address `at` is the one that would be built there. */
  method ScratchAndInPlace(f: seq<u8>, scratch: u64, at: u64) returns (rc: int, a: array<u8>, again: int, b: array<u8>)
    requires at != 0
    ensures rc == again && (rc == 0 ==> a[..] == b[..])
  {
    hide Loadable;
    hide ImageOf;
    hide Start;
    var run, runAgain;
    rc, a, run := LoadElf(f, scratch, at);
    again, b, runAgain := LoadElf(f, at, 0);
    assert Loadable(f) ==> run == runAgain;
  }
}
