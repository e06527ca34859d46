/** What the dynamic table's tags mean to the loader (kernel/app.c:4480-4498), entry by entry, and what a relative
    relocation comes to in a whole file. */
module ElfTags {
  import opened Machine
  import opened Elf
  import opened ElfImage
  import opened ElfValues

  /** Tag and value of entry e of the table at `at`, sixteen bytes an entry. */
  function TagOf(img: seq<u8>, at: nat, e: nat): nat
    requires at + 16 * e + 16 <= |img|
  {
    Read64(img, at + 16 * e)
  }

  function ValueIn(img: seq<u8>, at: nat, e: nat): nat
    requires at + 16 * e + 16 <= |img|
  {
    Read64(img, at + 16 * e + 8)
  }

  /** v is the value of the last of the first n entries with tag g, 0 if there is none. */
  ghost predicate LastValue(img: seq<u8>, at: nat, n: nat, g: nat, v: nat)
    requires at + 16 * n <= |img|
  {
    || (v == 0 && forall e: nat :: e < n ==> TagOf(img, at, e) != g)
    || exists e: nat :: IsLast(img, at, n, g, e) && v == ValueIn(img, at, e)
  }

  /** Entry e is the last of the first n with tag g. */
  ghost predicate IsLast(img: seq<u8>, at: nat, n: nat, g: nat, e: nat)
    requires at + 16 * n <= |img|
  {
    e < n && TagOf(img, at, e) == g && forall k: nat :: e < k < n ==> TagOf(img, at, k) != g
  }

  /** Each field is the value of the last entry with its tag. */
  ghost predicate AllFields(img: seq<u8>, at: nat, n: nat, t: Tabs)
    requires at + 16 * n <= |img|
  {
    && LastValue(img, at, n, 7, t.rela) && LastValue(img, at, n, 8, t.relasz) && LastValue(img, at, n, 9, t.relaent)
    && LastValue(img, at, n, 17, t.rel) && LastValue(img, at, n, 18, t.relsz)
    && LastValue(img, at, n, 6, t.symtab) && LastValue(img, at, n, 11, t.syment) && LastValue(img, at, n, 5, t.strtab)
    && LastValue(img, at, n, 23, t.jmprel) && LastValue(img, at, n, 2, t.pltrelsz)
    && LastValue(img, at, n, 20, t.pltrel)
  }

  /** Entry n is the first with tag 0. */
  ghost predicate EndsAt(img: seq<u8>, at: nat, size: nat, n: nat)
    requires at + size <= |img|
  {
    16 * n + 16 <= size && TagOf(img, at, n) == 0 && forall e: nat :: e < n ==> TagOf(img, at, e) != 0
  }

  lemma OneMore(img: seq<u8>, at: nat, n: nat, g: nat, v: nat)
    requires at + 16 * n + 16 <= |img| && LastValue(img, at, n, g, v)
    ensures LastValue(img, at, n + 1, g, if TagOf(img, at, n) == g then ValueIn(img, at, n) else v)
  {
    hide TagOf;
    hide ValueIn;
    if TagOf(img, at, n) == g {
      assert IsLast(img, at, n + 1, g, n);
    } else if !(v == 0 && forall e: nat :: e < n ==> TagOf(img, at, e) != g) {
      var e: nat :| IsLast(img, at, n, g, e) && v == ValueIn(img, at, e);
      assert IsLast(img, at, n + 1, g, e);
    }
  }

  lemma FieldsMore(img: seq<u8>, at: nat, n: nat, t: Tabs)
    requires at + 16 * n + 16 <= |img| && AllFields(img, at, n, t)
    ensures AllFields(img, at, n + 1, Noted(t, TagOf(img, at, n), ValueIn(img, at, n)))
  {
    hide TagOf;
    hide ValueIn;
    hide LastValue;
    OneMore(img, at, n, 7, t.rela);
    OneMore(img, at, n, 8, t.relasz);
    OneMore(img, at, n, 9, t.relaent);
    OneMore(img, at, n, 17, t.rel);
    OneMore(img, at, n, 18, t.relsz);
    OneMore(img, at, n, 6, t.symtab);
    OneMore(img, at, n, 11, t.syment);
    OneMore(img, at, n, 5, t.strtab);
    OneMore(img, at, n, 23, t.jmprel);
    OneMore(img, at, n, 2, t.pltrelsz);
    OneMore(img, at, n, 20, t.pltrel);
  }

  /** The scan from entry n on, the fields so far being those of the first n. */
  lemma {:induction false} ScanFrom(img: seq<u8>, at: nat, size: nat, off: nat, n: nat, t: Tabs)
    requires at + size <= |img| && size % DYN == 0 && off % DYN == 0 && off <= size && off == 16 * n
    requires AllFields(img, at, n, t) && forall e: nat :: e < n ==> TagOf(img, at, e) != 0
    ensures var r := Scan(img, at, size, off, t);
            && (r.Some? ==> exists m: nat :: EndsAt(img, at, size, m) && AllFields(img, at, m, r.value))
            && (r.None? <==> forall e: nat :: 16 * e + 16 <= size ==> TagOf(img, at, e) != 0)
    decreases size - off
  {
    hide AllFields;
    hide Noted;
    if off == size {
      assert forall e: nat :: 16 * e + 16 <= size ==> e < n;
    } else {
      EntryFits(size, off);
      if TagOf(img, at, n) == 0 {
        assert EndsAt(img, at, size, n);
      } else {
        FieldsMore(img, at, n, t);
        ScanFrom(img, at, size, off + DYN, n + 1, Noted(t, TagOf(img, at, n), ValueIn(img, at, n)));
      }
    }
  }

  /** The scan ends without a result exactly when no entry has tag 0; else each of the eleven fields is the value of
      the last entry with its tag before the first with tag 0, and 0 if there is none. */
  lemma TagsMean(img: seq<u8>, at: nat, size: nat)
    requires at + size <= |img| && size % DYN == 0
    ensures var r := Scan(img, at, size, 0, NO_TABS);
            && (r.None? <==> forall e: nat :: 16 * e + 16 <= size ==> TagOf(img, at, e) != 0)
            && (r.Some? ==> exists n: nat :: EndsAt(img, at, size, n) && AllFields(img, at, n, r.value))
  {
    hide Noted;
    assert AllFields(img, at, 0, NO_TABS);
    hide AllFields;
    ScanFrom(img, at, size, 0, 0, NO_TABS);
  }

  /** There is only one first entry with tag 0, and one last with a tag. */
  lemma OnlyValue(img: seq<u8>, at: nat, size: nat, n: nat, m: nat, g: nat, v: nat, e: nat)
    requires at + size <= |img| && EndsAt(img, at, size, n) && EndsAt(img, at, size, m)
    requires LastValue(img, at, m, g, v) && IsLast(img, at, n, g, e)
    ensures n == m && v == ValueIn(img, at, e)
  {
    hide TagOf;
    hide ValueIn;
    if n < m || m < n { assert false; }
    var d: nat :| IsLast(img, at, m, g, d) && v == ValueIn(img, at, d);
    if d < e || e < d { assert false; }
  }

  /** Where entry e of a file's dynamic table is the last with tag 7 before its end, and entry d the last with tag 8,
      the loader's first relocation table is where e says and as long as d says. */
  lemma TableFromTags(f: seq<u8>, n: nat, e: nat, d: nat, at: nat, size: nat)
    requires Loadable(f) && HeaderOk(f) && DynamicIn(f, PhNum(f)).Some?
    requires at + Start(f) == DynamicIn(f, PhNum(f)).value.vaddr && size == DynamicIn(f, PhNum(f)).value.memsz
    ensures |Segments(f, PhNum(f))| == Size(f) && at + size <= Size(f)
    ensures EndsAt(Segments(f, PhNum(f)), at, size, n) ==>
      TabsOf(f).Some?
      && (IsLast(Segments(f, PhNum(f)), at, n, 7, e) ==>
            TabsOf(f).value.rela == ValueIn(Segments(f, PhNum(f)), at, e))
      && (IsLast(Segments(f, PhNum(f)), at, n, 8, d) ==>
            TabsOf(f).value.relasz == ValueIn(Segments(f, PhNum(f)), at, d))
  {
    hide Segments;
    hide DynamicIn;
    hide Scan;
    hide Size;
    hide Header;
    hide LastValue;
    hide IsLast;
    ImageSize(f);
    DynamicFits(f, PhNum(f));
    var img := Segments(f, PhNum(f));
    TagsMean(img, at, size);
    if EndsAt(img, at, size, n) {
      var t := TabsOf(f).value;
      var m: nat :| EndsAt(img, at, size, m) && AllFields(img, at, m, t);
      if IsLast(img, at, n, 7, e) { OnlyValue(img, at, size, n, m, 7, t.rela, e); }
      if IsLast(img, at, n, 8, d) { OnlyValue(img, at, size, n, m, 8, t.relasz, d); }
    }
  }

  /** The word an entry of kind 8 at offset k of the first table names is the run address plus its addend modulo
      2^64. */
  lemma RelativeWord(img: seq<u8>, t: Tabs, lo: nat, run: nat, k: nat, b: seq<u8>, p: nat)
    requires TablesApart(img, t, lo) && Relocated(img, t, lo, run) == Fine(b) && |b| == |img|
    requires HasEntry(img, t, lo, false, k) && LastWord(img, t, lo, false, k)
    requires p + lo == t.rela + k && Read64(img, p + 8) % 0x1_0000_0000 == 8
    ensures lo <= Read64(img, p) && Read64(img, p) - lo + 8 <= |b|
    ensures Read64(b, Read64(img, p) - lo) == (run + Read64(img, p + 16)) % 0x1_0000_0000_0000_0000
  {
    hide Relocated;
    hide TablesApart;
    hide LastWord;
    EntryStands(img, t, lo, run, false, k, b);
    assert EntryAt(img, t, lo, false, k) == p;
    RelativeStands(img, Env(lo, run, t.symtab, t.strtab), p, b);
  }

  lemma RelativeStands(img: seq<u8>, e: Env, p: nat, b: seq<u8>)
    requires p + RELA <= |img| && Stands(img, e, p, b) && Read64(img, p + 8) % 0x1_0000_0000 == 8
    ensures e.lo <= Read64(img, p) && Read64(img, p) - e.lo + 8 <= |b|
    ensures Read64(b, Read64(img, p) - e.lo) == (e.run + Read64(img, p + 16)) % 0x1_0000_0000_0000_0000
  {
    hide Read64;
    hide Read32;
    hide Read16;
    hide HasSymbol;
  }

  /** Whole files: entry e of the dynamic table names a relocation table (tag 7) and entry d its length (tag 8). In the
      image loaded for `run`, the word that the table's entry of kind 8 at offset k names is run plus the entry's addend
      modulo 2^64, where no entry writes into what entries read and no later one names that word. */
  lemma RelativeEntry(f: seq<u8>, run: nat, n: nat, e: nat, d: nat, at: nat, size: nat, k: nat, p: nat)
    requires Loadable(f) && HeaderOk(f) && DynamicIn(f, PhNum(f)).Some? && ImageOf(f, run).Fine?
    ensures |Segments(f, PhNum(f))| == Size(f) == |ImageOf(f, run).img|
    ensures at + Start(f) == DynamicIn(f, PhNum(f)).value.vaddr && size == DynamicIn(f, PhNum(f)).value.memsz ==>
      at + size <= Size(f)
    ensures var img, lo := Segments(f, PhNum(f)), Start(f);
            at + Start(f) == DynamicIn(f, PhNum(f)).value.vaddr && size == DynamicIn(f, PhNum(f)).value.memsz
            && EndsAt(img, at, size, n) && IsLast(img, at, n, 7, e) && IsLast(img, at, n, 8, d) ==>
              var rela, relasz := ValueIn(img, at, e), ValueIn(img, at, d);
              TabsOf(f).Some? && TabsOf(f).value.rela == rela && TabsOf(f).value.relasz == relasz
              && (There(img, lo, rela, relasz) && k % 24 == 0 && k + 24 <= relasz && p + lo == rela + k
                  && Read64(img, p + 8) % 0x1_0000_0000 == 8 && TablesApart(img, TabsOf(f).value, lo)
                  && HasEntry(img, TabsOf(f).value, lo, false, k) && LastWord(img, TabsOf(f).value, lo, false, k) ==>
                    lo <= Read64(img, p) && Read64(img, p) - lo + 8 <= Size(f)
                    && Read64(ImageOf(f, run).img, Read64(img, p) - lo)
                       == (run + Read64(img, p + 16)) % 0x1_0000_0000_0000_0000)
  {
    hide Segments;
    hide DynamicIn;
    hide Scan;
    hide Size;
    hide Header;
    hide IsLast;
    hide TablesApart;
    hide Read64;
    hide LastWord;
    SizeKept(f, run);
    var img, lo := Segments(f, PhNum(f)), Start(f);
    if at + lo != DynamicIn(f, PhNum(f)).value.vaddr || size != DynamicIn(f, PhNum(f)).value.memsz { return; }
    TableFromTags(f, n, e, d, at, size);
    if EndsAt(img, at, size, n) && IsLast(img, at, n, 7, e) && IsLast(img, at, n, 8, d) {
      var t := TabsOf(f).value;
      if HasEntry(img, t, lo, false, k) && LastWord(img, t, lo, false, k) && TablesApart(img, t, lo)
         && p + lo == t.rela + k && Read64(img, p + 8) % 0x1_0000_0000 == 8 {
        RelativeWord(img, t, lo, run, k, ImageOf(f, run).img, p);
      }
    }
  }

  lemma SizeKept(f: seq<u8>, run: nat)
    requires Loadable(f) && HeaderOk(f) && ImageOf(f, run).Fine?
    ensures |Segments(f, PhNum(f))| == Size(f) == |ImageOf(f, run).img|
  {
    ImageSize(f);
    ImageIsSegments(f, run);
    hide *;
  }
}
