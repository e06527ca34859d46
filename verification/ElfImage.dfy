/** What a loaded image is, whatever the order the loader works in (kernel/app.c:4444-4597): a byte no
    relocation writes is the last segment's that holds it, or zero; and where relocations leave their own
    tables and symbols alone, the run address decides nothing but the bytes they write. */
module ElfImage {
  import opened Machine
  import opened Elf

  // ---- segments -----------------------------------------------------------------------------------------

  /** Byte i of an image that starts at `start` is one of those the file gives for p. */
  predicate Gives(p: Phdr, start: nat, i: nat) {
    Loads(p) && p.vaddr <= start + i < p.vaddr + p.filesz
  }

  /** Header j is the last of the first n that gives byte i. */
  ghost predicate LastToGive(f: seq<u8>, n: nat, i: nat, j: nat)
    requires HeaderOk(f) && n <= PhNum(f)
  {
    j < n && Gives(Header(f, j), Start(f), i) && forall k :: j < k < n ==> !Gives(Header(f, k), Start(f), i)
  }

  /** b is the byte the file gives for address `at` through p. */
  predicate FromFile(f: seq<u8>, b: u8, p: Phdr, at: nat) {
    0 <= p.offset + (at - p.vaddr) < |f| && b == f[p.offset + (at - p.vaddr)]
  }

  /** Where segments overlap the later one counts; where there is none the image is zero. */
  lemma {:induction false} SegmentByte(f: seq<u8>, n: nat, i: nat)
    requires Loadable(f) && HeaderOk(f) && n <= PhNum(f) && i < Size(f)
    ensures forall j ::
      0 <= j < n && LastToGive(f, n, i, j) ==> FromFile(f, Segments(f, n)[i], Header(f, j), Start(f) + i)
    ensures (forall j :: 0 <= j < n ==> !Gives(Header(f, j), Start(f), i)) ==> Segments(f, n)[i] == 0
  {
    hide Loadable;
    hide Header;
    hide Start;
    hide Segments;
    hide Size;
    hide Gives;
    hide FromFile;
    hide LastToGive;
    SegmentsStep(f, n, i);
    if n > 0 {
      SegmentByte(f, n - 1, i);
      forall j | 0 <= j < n && LastToGive(f, n, i, j)
        ensures FromFile(f, Segments(f, n)[i], Header(f, j), Start(f) + i)
      {
        LastGives(f, n, i, j);
        if j < n - 1 { LastBefore(f, n, i, j); }
      }
    }
  }

  lemma LastGives(f: seq<u8>, n: nat, i: nat, j: nat)
    requires HeaderOk(f) && n <= PhNum(f) && LastToGive(f, n, i, j)
    ensures j < n && Gives(Header(f, j), Start(f), i)
  {}

  lemma LastBefore(f: seq<u8>, n: nat, i: nat, j: nat)
    requires HeaderOk(f) && 0 < n <= PhNum(f) && LastToGive(f, n, i, j) && j < n - 1
    ensures LastToGive(f, n - 1, i, j) && !Gives(Header(f, n - 1), Start(f), i)
  {
    hide Header;
    hide Start;
    hide Gives;
  }

  lemma SegmentsStep(f: seq<u8>, n: nat, i: nat)
    requires Loadable(f) && HeaderOk(f) && n <= PhNum(f) && i < Size(f)
    ensures n == 0 ==> Segments(f, n)[i] == 0
    ensures n > 0 ==>
      if Gives(Header(f, n - 1), Start(f), i) then FromFile(f, Segments(f, n)[i], Header(f, n - 1), Start(f) + i)
      else Segments(f, n)[i] == Segments(f, n - 1)[i]
  {
    hide Loadable;
    hide Header;
    hide Start;
    if n > 0 && Loads(Header(f, n - 1)) {
      var p := Header(f, n - 1);
      SegmentFits(f, n - 1);
      OverlayByte(Segments(f, n - 1), p.vaddr - Start(f), f[p.offset..p.offset + p.filesz], i);
      hide Overlay;
    }
  }

  lemma OverlayByte(img: seq<u8>, at: nat, b: seq<u8>, i: nat)
    requires at + |b| <= |img| && i < |img|
    ensures Overlay(img, at, b)[i] == if at <= i < at + |b| then b[i - at] else img[i]
  {}

  // ---- what relocations write ---------------------------------------------------------------------------

  function KindAt(img: seq<u8>, at: nat): nat
    requires at + RELA <= |img|
  {
    Read64(img, at + 8) % TWO32
  }

  /** n bytes from `at` on. */
  ghost function Bytes(at: nat, n: nat): (s: set<nat>)
    ensures forall i: nat :: i in s <==> at <= i < at + n
    decreases n
  {
    if n == 0 then {} else {at} + Bytes(at + 1, n - 1)
  }

  /** The bytes the entry at `at` writes, if it is carried out. */
  ghost function Target(img: seq<u8>, lo: nat, at: nat): set<nat>
    requires at + RELA <= |img|
  {
    var offset, w := Read64(img, at), if KindAt(img, at) == 2 then 4 else 8;
    if KindAt(img, at) == 0 || !InImage(offset, w, lo, |img|) then {}
    else Bytes(offset - lo, w)
  }

  /** The images agree outside T. */
  ghost predicate Agree(a: seq<u8>, b: seq<u8>, T: set<nat>) {
    |a| == |b| && forall i: nat :: i < |a| && i !in T ==> a[i] == b[i]
  }

  lemma EntryWrites(img: seq<u8>, e: Env, at: nat)
    requires at + RELA <= |img| && Relocate(img, e, at).Fine?
    ensures Agree(img, Relocate(img, e, at).img, Target(img, e.lo, at))
  {
    hide Write;
    hide Read64;
    hide Read32;
    hide Read16;
    hide SymbolName;
  }

  /** The bytes a walk through a table writes, each entry read from what the one before left. */
  ghost function Written(img: seq<u8>, e: Env, at: nat, size: nat, o: nat): set<nat>
    requires at + size <= |img| && size % RELA == 0 && o % RELA == 0 && o <= size
    decreases size - o
  {
    hide Relocate;
    if o == size then {}
    else
      RelaFits(size, o);
      var r := Relocate(img, e, at + o);
      Target(img, e.lo, at + o) + if r.Fine? then (SameSize(img, e, at + o); Written(r.img, e, at, size, o + RELA))
          else {}
  }

  lemma {:induction false} TableWrites(img: seq<u8>, e: Env, at: nat, size: nat, o: nat)
    requires at + size <= |img| && size % RELA == 0 && o % RELA == 0 && o <= size
    requires Table(img, e, at, size, o).Fine?
    ensures Agree(img, Table(img, e, at, size, o).img, Written(img, e, at, size, o))
    decreases size - o
  {
    hide Relocate;
    hide Target;
    if o < size {
      RelaFits(size, o);
      SameSize(img, e, at + o);
      EntryWrites(img, e, at + o);
      TableWrites(Relocate(img, e, at + o).img, e, at, size, o + RELA);
    }
  }

  ghost function TableWritten(img: seq<u8>, e: Env, addr: nat, size: nat): set<nat> {
    if addr == 0 || size % RELA != 0 || !InImage(addr, size, e.lo, |img|) then {}
        else Written(img, e, addr - e.lo, size, 0)
  }

  lemma WholeTableWrites(img: seq<u8>, e: Env, addr: nat, size: nat)
    requires WholeTable(img, e, addr, size).Fine?
    ensures Agree(img, WholeTable(img, e, addr, size).img, TableWritten(img, e, addr, size))
  {
    hide Written;
    hide Table;
    if addr != 0 { TableWrites(img, e, addr - e.lo, size, 0); }
  }

  /** All bytes the relocations of a file write when it is to run at `run`. */
  ghost function Targets(img: seq<u8>, t: Tabs, lo: nat, run: nat): set<nat> {
    hide WholeTable;
    var e := Env(lo, run, t.symtab, t.strtab);
    var r := WholeTable(img, e, t.rela, t.relasz);
    TableWritten(img, e, t.rela, t.relasz)
    + if r.Fine? then TableWritten(r.img, e, if t.pltrel == 7 then t.jmprel else 0, t.pltrelsz) else {}
  }

  /** The tables of a file that has them. */
  ghost function TabsOf(f: seq<u8>): Option<Tabs>
    requires Loadable(f) && HeaderOk(f)
  {
    hide Segments;
    hide DynamicIn;
    hide Scan;
    hide Size;
    hide Header;
    var img, d := Segments(f, PhNum(f)), DynamicIn(f, PhNum(f));
    if d.None? then None else (DynamicFits(f, PhNum(f)); ImageSize(f); Scan(img, d.value.vaddr - Start(f),
        d.value.memsz, 0, NO_TABS))
  }

  /** What an image loaded to run at `run` is: outside the bytes its relocations write, its segments. */
  lemma ImageIsSegments(f: seq<u8>, run: nat)
    requires Loadable(f) && HeaderOk(f) && ImageOf(f, run).Fine?
    ensures Agree(Segments(f, PhNum(f)), ImageOf(f, run).img,
                  if TabsOf(f).None? then {} else Targets(Segments(f, PhNum(f)), TabsOf(f).value, Start(f), run))
  {
    hide Segments;
    hide DynamicIn;
    hide Scan;
    hide Size;
    hide Header;
    hide WholeTable;
    hide TableWritten;
    if TabsOf(f).Some? {
      var img, t, lo := Segments(f, PhNum(f)), TabsOf(f).value, Start(f);
      var e := Env(lo, run, t.symtab, t.strtab);
      var r := WholeTable(img, e, t.rela, t.relasz);
      assert Relocated(img, t, lo, run).Fine?;
      WholeTableWrites(img, e, t.rela, t.relasz);
      WholeTableWrites(r.img, e, if t.pltrel == 7 then t.jmprel else 0, t.pltrelsz);
    }
  }

  // ---- what the run address decides -----------------------------------------------------------------------

  function SymbolAt(img: seq<u8>, symtab: nat, at: nat): nat
    requires at + RELA <= |img|
  {
    symtab + Read64(img, at + 8) / TWO32 * SYM
  }

  predicate HasSymbol(img: seq<u8>, lo: nat, symtab: nat, at: nat)
    requires at + RELA <= |img|
  {
    symtab != 0 && symtab < TWO64 && Read64(img, at + 8) / TWO32 <= (TWO64 - 1 - symtab) / SYM
    && InImage(SymbolAt(img, symtab, at), SYM, lo, |img|)
  }

  /** Neither the entry nor its symbol has a byte in T. */
  ghost predicate EntryApart(img: seq<u8>, lo: nat, symtab: nat, at: nat, T: set<nat>)
    requires at + RELA <= |img| && symtab < TWO64
  {
    && (forall i: nat :: at <= i < at + RELA ==> i !in T)
    && (HasSymbol(img, lo, symtab, at) ==>
          forall i: nat :: SymbolAt(img, symtab, at) - lo <= i < SymbolAt(img, symtab, at) - lo + SYM ==> i !in T)
  }

  /** The entry can be carried out, wherever the image is to run. */
  predicate EntryFine(img: seq<u8>, lo: nat, symtab: nat, at: nat)
    requires at + RELA <= |img| && symtab < TWO64
  {
    var kind := KindAt(img, at);
    || kind == 0
    || (InImage(Read64(img, at), if kind == 2 then 4 else 8, lo, |img|)
        && (kind == 8
            || (HasSymbol(img, lo, symtab, at) && Read16(img, SymbolAt(img, symtab, at) - lo + 6) != 0
                && (kind == 1 || kind == 2 || kind == 6 || kind == 7))))
  }

  lemma SameRead(a: seq<u8>, b: seq<u8>, at: nat, T: set<nat>)
    requires Agree(a, b, T) && at + 8 <= |a| && forall i: nat :: at <= i < at + 8 ==> i !in T
    ensures Read64(a, at) == Read64(b, at)
  {
    forall i: nat | at <= i < at + 8
      ensures a[i] == b[i]
    {}
  }

  lemma SameHalf(a: seq<u8>, b: seq<u8>, at: nat, T: set<nat>)
    requires Agree(a, b, T) && at + 2 <= |a| && forall i: nat :: at <= i < at + 2 ==> i !in T
    ensures Read16(a, at) == Read16(b, at)
  {
    assert a[at] == b[at] && a[at + 1] == b[at + 1];
  }

  /** An entry and its symbol read the same on an image that differs from the file's only in T. */
  lemma EntryReads(img: seq<u8>, a: seq<u8>, lo: nat, symtab: nat, at: nat, T: set<nat>)
    requires Agree(img, a, T) && at + RELA <= |img| && symtab < TWO64 && EntryApart(img, lo, symtab, at, T)
    ensures Read64(a, at) == Read64(img, at) && Read64(a, at + 8) == Read64(img, at + 8)
    ensures HasSymbol(img, lo, symtab, at) ==>
      Read16(a, SymbolAt(img, symtab, at) - lo + 6) == Read16(img, SymbolAt(img, symtab, at) - lo + 6)
  {
    hide Read64;
    hide Read16;
    SameRead(img, a, at, T);
    SameRead(img, a, at + 8, T);
    if HasSymbol(img, lo, symtab, at) {
      SameHalf(img, a, SymbolAt(img, symtab, at) - lo + 6, T);
    }
  }

  lemma FineAlike(img: seq<u8>, a: seq<u8>, e: Env, at: nat)
    requires |a| == |img| && at + RELA <= |img|
    requires Read64(a, at) == Read64(img, at) && Read64(a, at + 8) == Read64(img, at + 8)
    requires HasSymbol(img, e.lo, e.symtab, at) ==>
      Read16(a, SymbolAt(img, e.symtab, at) - e.lo + 6) == Read16(img, SymbolAt(img, e.symtab, at) - e.lo + 6)
    ensures Relocate(a, e, at).Fine? <==> EntryFine(img, e.lo, e.symtab, at)
    ensures Target(a, e.lo, at) == Target(img, e.lo, at)
  {
    hide Read64;
    hide Read32;
    hide Read16;
    hide Write;
    hide SymbolName;
  }

  /** One entry, on an image that differs from the file's only in T. */
  lemma EntryAgrees(img: seq<u8>, a: seq<u8>, e: Env, at: nat, T: set<nat>)
    requires Agree(img, a, T) && at + RELA <= |img| && EntryApart(img, e.lo, e.symtab, at, T)
      && Target(img, e.lo, at) <= T
    ensures Relocate(a, e, at).Fine? <==> EntryFine(img, e.lo, e.symtab, at)
    ensures Relocate(a, e, at).Fine? ==> Agree(img, Relocate(a, e, at).img, T)
  {
    hide Relocate;
    hide Target;
    hide EntryFine;
    hide Read64;
    hide Read16;
    EntryReads(img, a, e.lo, e.symtab, at, T);
    FineAlike(img, a, e, at);
    if Relocate(a, e, at).Fine? {
      EntryWrites(a, e, at);
    }
  }

  /** The bytes the entries of a table name, as the file has them. */
  ghost function Named(img: seq<u8>, lo: nat, at: nat, size: nat, o: nat): set<nat>
    requires at + size <= |img| && size % RELA == 0 && o % RELA == 0 && o <= size
    decreases size - o
  {
    if o == size then {} else (RelaFits(size, o); Target(img, lo, at + o) + Named(img, lo, at, size, o + RELA))
  }

  ghost predicate Apart(img: seq<u8>, lo: nat, symtab: nat, at: nat, size: nat, o: nat, T: set<nat>)
    requires at + size <= |img| && size % RELA == 0 && o % RELA == 0 && o <= size && symtab < TWO64
    decreases size - o
  {
    o == size || (RelaFits(size, o); EntryApart(img, lo, symtab, at + o, T)
        && Apart(img, lo, symtab, at, size, o + RELA, T))
  }

  predicate TableFine(img: seq<u8>, lo: nat, symtab: nat, at: nat, size: nat, o: nat)
    requires at + size <= |img| && size % RELA == 0 && o % RELA == 0 && o <= size && symtab < TWO64
    decreases size - o
  {
    o == size || (RelaFits(size, o); EntryFine(img, lo, symtab, at + o)
        && TableFine(img, lo, symtab, at, size, o + RELA))
  }

  lemma {:induction false} TableAgrees(img: seq<u8>, a: seq<u8>, e: Env, at: nat, size: nat, o: nat, T: set<nat>)
    requires Agree(img, a, T) && at + size <= |img| && size % RELA == 0 && o % RELA == 0 && o <= size
    requires Apart(img, e.lo, e.symtab, at, size, o, T) && Named(img, e.lo, at, size, o) <= T
    ensures Table(a, e, at, size, o).Fine? <==> TableFine(img, e.lo, e.symtab, at, size, o)
    ensures Table(a, e, at, size, o).Fine? ==> Agree(img, Table(a, e, at, size, o).img, T)
    decreases size - o
  {
    hide Relocate;
    hide EntryFine;
    hide EntryApart;
    hide Target;
    if o < size {
      RelaFits(size, o);
      EntryAgrees(img, a, e, at + o, T);
      var r := Relocate(a, e, at + o);
      if r.Fine? { TableAgrees(img, r.img, e, at, size, o + RELA, T); }
    }
  }

  predicate There(img: seq<u8>, lo: nat, addr: nat, size: nat) {
    addr != 0 && size % RELA == 0 && InImage(addr, size, lo, |img|)
  }

  ghost function TableNamed(img: seq<u8>, lo: nat, addr: nat, size: nat): set<nat> {
    if There(img, lo, addr, size) then Named(img, lo, addr - lo, size, 0) else {}
  }

  ghost predicate TableApart(img: seq<u8>, lo: nat, symtab: u64, addr: nat, size: nat, T: set<nat>) {
    There(img, lo, addr, size) ==> Apart(img, lo, symtab, addr - lo, size, 0, T)
  }

  predicate WholeFine(img: seq<u8>, lo: nat, symtab: u64, addr: nat, size: nat) {
    addr == 0 || (There(img, lo, addr, size) && TableFine(img, lo, symtab, addr - lo, size, 0))
  }

  lemma WholeAgrees(img: seq<u8>, a: seq<u8>, e: Env, addr: nat, size: nat, T: set<nat>)
    requires Agree(img, a, T) && TableApart(img, e.lo, e.symtab, addr, size, T)
      && TableNamed(img, e.lo, addr, size) <= T
    ensures WholeTable(a, e, addr, size).Fine? <==> WholeFine(img, e.lo, e.symtab, addr, size)
    ensures WholeTable(a, e, addr, size).Fine? ==> Agree(img, WholeTable(a, e, addr, size).img, T)
  {
    hide Table;
    hide TableFine;
    hide Apart;
    hide Named;
    if There(img, e.lo, addr, size) { TableAgrees(img, a, e, addr - e.lo, size, 0, T); }
  }

  /** All bytes named by the entries of both tables. */
  ghost function AllNamed(img: seq<u8>, t: Tabs, lo: nat): set<nat> {
    TableNamed(img, lo, t.rela, t.relasz) + TableNamed(img, lo, if t.pltrel == 7 then t.jmprel else 0, t.pltrelsz)
  }

  /** No entry writes into a table or a symbol that some entry reads. */
  ghost predicate TablesApart(img: seq<u8>, t: Tabs, lo: nat) {
    && TableApart(img, lo, t.symtab, t.rela, t.relasz, AllNamed(img, t, lo))
    && TableApart(img, lo, t.symtab, if t.pltrel == 7 then t.jmprel else 0, t.pltrelsz, AllNamed(img, t, lo))
  }

  lemma RelocatedAgrees(img: seq<u8>, t: Tabs, lo: nat, run: nat)
    requires TablesApart(img, t, lo)
    ensures Relocated(img, t, lo, run).Fine? <==>
      && TabsOk(t) && WholeFine(img, lo, t.symtab, t.rela, t.relasz)
      && WholeFine(img, lo, t.symtab, if t.pltrel == 7 then t.jmprel else 0, t.pltrelsz)
    ensures Relocated(img, t, lo, run).Fine? ==> Agree(img, Relocated(img, t, lo, run).img, AllNamed(img, t, lo))
  {
    hide WholeTable;
    hide WholeFine;
    hide TableApart;
    hide TableNamed;
    hide TabsOk;
    var e, T := Env(lo, run, t.symtab, t.strtab), AllNamed(img, t, lo);
    var r := WholeTable(img, e, t.rela, t.relasz);
    WholeAgrees(img, img, e, t.rela, t.relasz, T);
    if r.Fine? {
      WholeAgrees(img, r.img, e, if t.pltrel == 7 then t.jmprel else 0, t.pltrelsz, T);
    }
  }

  /** Where no entry writes into what entries read, two run addresses are accepted alike, and the images differ
      only in the bytes the file's own entries name. */
  lemma RunAddressOnly(f: seq<u8>, one: nat, two: nat)
    requires Loadable(f) && HeaderOk(f)
    ensures (TabsOf(f).Some? ==> TablesApart(Segments(f, PhNum(f)), TabsOf(f).value, Start(f))) ==>
      && (ImageOf(f, one).Fine? <==> ImageOf(f, two).Fine?)
      && (ImageOf(f, one).Fine? ==>
            Agree(ImageOf(f, one).img, ImageOf(f, two).img,
                  if TabsOf(f).None? then {} else AllNamed(Segments(f, PhNum(f)), TabsOf(f).value, Start(f))))
  {
    hide Segments;
    hide DynamicIn;
    hide Scan;
    hide Size;
    hide Header;
    hide Relocated;
    hide TablesApart;
    hide AllNamed;
    if TabsOf(f).Some? && TablesApart(Segments(f, PhNum(f)), TabsOf(f).value, Start(f)) {
      RelocatedAgrees(Segments(f, PhNum(f)), TabsOf(f).value, Start(f), one);
      RelocatedAgrees(Segments(f, PhNum(f)), TabsOf(f).value, Start(f), two);
    }
  }
}
