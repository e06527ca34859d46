/** What relocations leave where nothing overwrites it (kernel/app.c:4512-4546): each entry's value, and so how
    images for two run addresses differ. */
module ElfValues {
  import opened Arith
  import opened Machine
  import opened Elf
  import opened ElfImage

  // ---- writing and reading back ---------------------------------------------------------------------------

  lemma FirstByte(b: seq<u8>, at: nat, v: nat, n: nat)
    requires at + n <= |b| && n > 0
    ensures Write(b, at, v, n)[at] == v % 0x100
    ensures Write(b, at, v, n) == Write(b[at := v % 0x100], at + 1, v / 0x100, n - 1)
  {
    var r := Write(b[at := v % 0x100], at + 1, v / 0x100, n - 1);
    assert r[at] == b[at := v % 0x100][at];
  }

  /** v without its k lowest bytes. */
  function Rest(v: nat, k: nat): nat {
    if k == 0 then v else Rest(v / 0x100, k - 1)
  }

  lemma {:induction false} RestNext(v: nat, k: nat)
    ensures Rest(v, k + 1) == Rest(v, k) / 0x100
  {
    if k > 0 { RestNext(v / 0x100, k - 1); }
  }

  lemma {:induction false} ByteWritten(b: seq<u8>, at: nat, v: nat, n: nat, k: nat)
    requires at + n <= |b| && k < n
    ensures Write(b, at, v, n)[at + k] == Rest(v, k) % 0x100
    decreases k
  {
    hide Write;
    FirstByte(b, at, v, n);
    if k > 0 { ByteWritten(b[at := v % 0x100], at + 1, v / 0x100, n - 1, k - 1); }
  }

  /** One byte of a number and what is above it. */
  lemma Peel(v: nat, k: nat, n: nat)
    requires n == k + 1
    ensures Rest(v, k) == 0x100 * Rest(v, n) + Rest(v, k) % 0x100
  {
    RestNext(v, k);
  }

  lemma Spelled4(v: nat, z: nat, d: seq<int>)
    requires z == 0 && v < TWO32 && |d| == 4 && forall k: nat :: k < 4 ==> d[k] == Rest(v, z + k) % 0x100
    ensures v == d[0] + 0x100 * d[1] + 0x1_0000 * d[2] + 0x100_0000 * d[3]
  {
    Peel(v, z, z + 1);
    Peel(v, z + 1, z + 2);
    Peel(v, z + 2, z + 3);
    Peel(v, z + 3, z + 4);
  }

  lemma Spelled8(v: nat, z: nat, d: seq<int>)
    requires z == 0 && v < TWO64 && |d| == 8 && forall k: nat :: k < 8 ==> d[k] == Rest(v, z + k) % 0x100
    ensures v == d[0] + 0x100 * d[1] + 0x1_0000 * d[2] + 0x100_0000 * d[3] + TWO32 * d[4] + 0x100_0000_0000 * d[5]
                 + 0x1_0000_0000_0000 * d[6] + 0x100_0000_0000_0000 * d[7]
  {
    Peel(v, z, z + 1);
    Peel(v, z + 1, z + 2);
    Peel(v, z + 2, z + 3);
    Peel(v, z + 3, z + 4);
    Peel(v, z + 4, z + 5);
    Peel(v, z + 5, z + 6);
    Peel(v, z + 6, z + 7);
    Peel(v, z + 7, z + 8);
  }

  /** The bytes written, read one by one. */
  lemma BytesWritten(b: seq<u8>, at: nat, v: nat, n: nat)
    requires at + n <= |b|
    ensures forall k: nat {:trigger Rest(v, k)} :: k < n ==> Write(b, at, v, n)[at..at + n][k] == Rest(v, k) % 0x100
  {
    hide Write;
    hide Rest;
    forall k: nat | k < n
      ensures Write(b, at, v, n)[at..at + n][k] == Rest(v, k) % 0x100
    {
      ByteWritten(b, at, v, n, k);
    }
  }

  lemma ReadBack4(b: seq<u8>, at: nat, v: nat, n: nat)
    requires n == 4 && at + n <= |b| && v < TWO32
    ensures Read32(Write(b, at, v, n), at) == v
  {
    hide Write;
    hide Rest;
    var z: nat := 0;
    BytesWritten(b, at, v, n);
    Spelled4(v, z, Write(b, at, v, n)[at..at + n]);
  }

  lemma ReadBack8(b: seq<u8>, at: nat, v: nat, n: nat)
    requires n == 8 && at + n <= |b| && v < TWO64
    ensures Read64(Write(b, at, v, n), at) == v
  {
    hide Write;
    hide Rest;
    var z: nat := 0;
    BytesWritten(b, at, v, n);
    Spelled8(v, z, Write(b, at, v, n)[at..at + n]);
  }

  // ---- one entry -----------------------------------------------------------------------------------------------

  /** The value of an entry of the given kind for a symbol at x. */
  function ValueOf(kind: nat, run: nat, x: nat, addend: nat, offset: nat): (v: nat)
    ensures v < TWO64 && (kind == 2 ==> v < TWO32)
  {
    if kind == 8 then (run + addend) % TWO64
    else
      var s := (run + x) % TWO64;
      if kind == 1 then (s + addend) % TWO64
      else if kind == 2 then (s + addend - (run + offset)) % TWO32
      else s
  }

  /** What an entry that can be carried out puts at its place, by the file alone and the run address. */
  function EntryValue(img: seq<u8>, e: Env, at: nat): (v: nat)
    requires at + RELA <= |img| && EntryFine(img, e.lo, e.symtab, at) && KindAt(img, at) != 0
    ensures v < TWO64 && (KindAt(img, at) == 2 ==> v < TWO32)
  {
    var x := if KindAt(img, at) == 8 then 0 else Read64(img, SymbolAt(img, e.symtab, at) - e.lo + 8);
    ValueOf(KindAt(img, at), e.run, x, Read64(img, at + 16), Read64(img, at))
  }

  function Width(img: seq<u8>, at: nat): nat
    requires at + RELA <= |img|
  {
    if KindAt(img, at) == 2 then 4 else 8
  }

  /** Where the entry writes. */
  function Place(img: seq<u8>, lo: nat, symtab: nat, at: nat): (p: nat)
    requires at + RELA <= |img| && symtab < TWO64 && EntryFine(img, lo, symtab, at) && KindAt(img, at) != 0
    ensures p + Width(img, at) <= |img|
  {
    Read64(img, at) - lo
  }

  /** The entry's value stands at its place. */
  ghost predicate Stands(img: seq<u8>, e: Env, at: nat, a: seq<u8>)
    requires at + RELA <= |img|
  {
    && EntryFine(img, e.lo, e.symtab, at) && KindAt(img, at) != 0 && |a| == |img|
    && (var p := Place(img, e.lo, e.symtab, at);
        EntryValue(img, e, at) == if KindAt(img, at) == 2 then Read32(a, p) else Read64(a, p))
  }

  lemma MoreReads(img: seq<u8>, a: seq<u8>, lo: nat, symtab: nat, at: nat, T: set<nat>)
    requires Agree(img, a, T) && at + RELA <= |img| && symtab < TWO64 && EntryApart(img, lo, symtab, at, T)
    ensures Read64(a, at + 16) == Read64(img, at + 16)
    ensures HasSymbol(img, lo, symtab, at) ==>
      Read64(a, SymbolAt(img, symtab, at) - lo + 8) == Read64(img, SymbolAt(img, symtab, at) - lo + 8)
  {
    hide Read64;
    SameRead(img, a, at + 16, T);
    if HasSymbol(img, lo, symtab, at) {
      SameRead(img, a, SymbolAt(img, symtab, at) - lo + 8, T);
    }
  }

  /** Carrying an entry out is writing its value at its place, on any image that reads the same. */
  lemma EntryIs(img: seq<u8>, a: seq<u8>, e: Env, at: nat)
    requires |a| == |img| && at + RELA <= |img| && EntryFine(img, e.lo, e.symtab, at) && KindAt(img, at) != 0
    requires Read64(a, at) == Read64(img, at) && Read64(a, at + 8) == Read64(img, at + 8)
      && Read64(a, at + 16) == Read64(img, at + 16)
    requires HasSymbol(img, e.lo, e.symtab, at) ==>
      && Read16(a, SymbolAt(img, e.symtab, at) - e.lo + 6) == Read16(img, SymbolAt(img, e.symtab, at) - e.lo + 6)
      && Read64(a, SymbolAt(img, e.symtab, at) - e.lo + 8) == Read64(img, SymbolAt(img, e.symtab, at) - e.lo + 8)
    ensures Relocate(a, e, at)
            == Fine(Write(a, Place(img, e.lo, e.symtab, at), EntryValue(img, e, at), Width(img, at)))
  {
    hide Read64;
    hide Read32;
    hide Read16;
    hide Write;
    hide SymbolName;
  }

  lemma EntryLands(img: seq<u8>, a: seq<u8>, e: Env, at: nat, T: set<nat>)
    requires Agree(img, a, T) && at + RELA <= |img| && EntryApart(img, e.lo, e.symtab, at, T)
    requires EntryFine(img, e.lo, e.symtab, at) && KindAt(img, at) != 0
    ensures Relocate(a, e, at).Fine? && |Relocate(a, e, at).img| == |img| && Stands(img, e, at, Relocate(a, e, at).img)
  {
    EntryReads(img, a, e.lo, e.symtab, at, T);
    MoreReads(img, a, e.lo, e.symtab, at, T);
    EntryIs(img, a, e, at);
    hide Relocate;
    hide EntryFine;
    hide EntryValue;
    hide Write;
    hide Read64;
    hide Read32;
    var p, v := Place(img, e.lo, e.symtab, at), EntryValue(img, e, at);
    if KindAt(img, at) == 2 { ReadBack4(a, p, v, 4); } else { ReadBack8(a, p, v, 8); }
  }

  lemma TargetIs(img: seq<u8>, e: Env, at: nat)
    requires at + RELA <= |img| && EntryFine(img, e.lo, e.symtab, at) && KindAt(img, at) != 0
    ensures Target(img, e.lo, at) == Bytes(Place(img, e.lo, e.symtab, at), Width(img, at))
  {
    hide Read64;
    hide Read16;
    hide HasSymbol;
  }

  /** A value stands as long as only bytes elsewhere change. */
  lemma StillStands(img: seq<u8>, e: Env, at: nat, a: seq<u8>, b: seq<u8>, S: set<nat>)
    requires at + RELA <= |img| && Stands(img, e, at, a) && Agree(a, b, S) && S !! Target(img, e.lo, at)
    ensures Stands(img, e, at, b)
  {
    hide EntryValue;
    hide EntryFine;
    hide Target;
    TargetIs(img, e, at);
    var p := Place(img, e.lo, e.symtab, at);
    if KindAt(img, at) == 2 {
      SameWord(a, b, p, S);
    } else {
      SameRead(a, b, p, S);
    }
  }

  lemma SameWord(a: seq<u8>, b: seq<u8>, at: nat, S: set<nat>)
    requires Agree(a, b, S) && at + 4 <= |a| && forall i: nat :: at <= i < at + 4 ==> i !in S
    ensures Read32(a, at) == Read32(b, at)
  {
    assert a[at] == b[at] && a[at + 1] == b[at + 1] && a[at + 2] == b[at + 2] && a[at + 3] == b[at + 3];
  }

  // ---- whole tables -----------------------------------------------------------------------------------------------

  /** What a table's entries write is what the file's own entries name. */
  lemma {:induction false} WritesNamed(img: seq<u8>, a: seq<u8>, e: Env, at: nat, size: nat, o: nat, T: set<nat>)
    requires Agree(img, a, T) && at + size <= |img| && size % RELA == 0 && o % RELA == 0 && o <= size
    requires Apart(img, e.lo, e.symtab, at, size, o, T) && Named(img, e.lo, at, size, o) <= T
    requires Table(a, e, at, size, o).Fine?
    ensures Agree(a, Table(a, e, at, size, o).img, Named(img, e.lo, at, size, o))
    decreases size - o
  {
    hide Relocate;
    hide EntryFine;
    hide EntryApart;
    hide Target;
    if o < size {
      RelaFits(size, o);
      SameTarget(img, a, e.lo, e.symtab, at + o, T);
      EntryAgrees(img, a, e, at + o, T);
      EntryWrites(a, e, at + o);
      WritesNamed(img, Relocate(a, e, at + o).img, e, at, size, o + RELA, T);
    }
  }

  lemma SameTarget(img: seq<u8>, a: seq<u8>, lo: nat, symtab: nat, at: nat, T: set<nat>)
    requires Agree(img, a, T) && at + RELA <= |img| && symtab < TWO64 && EntryApart(img, lo, symtab, at, T)
    ensures Target(a, lo, at) == Target(img, lo, at)
  {
    hide Read64;
    EntryReads(img, a, lo, symtab, at, T);
  }

  /** In a table that is carried out, the value of the entry at k stands at the end if no later entry names its
      bytes. */
  lemma {:induction false} TableLands(img: seq<u8>, a: seq<u8>, e: Env, at: nat, size: nat, o: nat, T: set<nat>, k: nat,
                                       b: seq<u8>)
    requires Agree(img, a, T) && at + size <= |img| && size % RELA == 0 && o % RELA == 0 && k % RELA == 0
      && o <= k < size
    requires Apart(img, e.lo, e.symtab, at, size, o, T) && Named(img, e.lo, at, size, o) <= T
    requires Table(a, e, at, size, o) == Fine(b)
    requires k + RELA <= size && (k + RELA) % RELA == 0 && KindAt(img, at + k) != 0
    requires Named(img, e.lo, at, size, k + RELA) !! Target(img, e.lo, at + k)
    ensures Stands(img, e, at + k, b)
    decreases size - o
  {
    hide Relocate;
    hide EntryFine;
    hide EntryApart;
    hide Target;
    hide Stands;
    hide KindAt;
    RelaFits(size, o);
    EntryAgrees(img, a, e, at + o, T);
    var c := Relocate(a, e, at + o).img;
    SameSize(a, e, at + o);
    if o == k {
      EntryLands(img, a, e, at + o, T);
      WritesNamed(img, c, e, at, size, o + RELA, T);
      StillStands(img, e, at + k, c, b, Named(img, e.lo, at, size, k + RELA));
    } else {
      NextEntry(o, k);
      TableLands(img, c, e, at, size, o + RELA, T, k, b);
    }
  }

  lemma NextEntry(o: nat, k: nat)
    requires o % RELA == 0 && k % RELA == 0 && o < k
    ensures o + RELA <= k
  {
    assert o == RELA * (o / RELA) && k == RELA * (k / RELA);
    assert o / RELA + 1 <= k / RELA;
  }

  // ---- both tables ------------------------------------------------------------------------------------------------

  function TableAt(t: Tabs, second: bool): nat {
    if !second then t.rela else if t.pltrel == 7 then t.jmprel else 0
  }

  function TableSize(t: Tabs, second: bool): nat {
    if second then t.pltrelsz else t.relasz
  }

  /** There is an entry at offset k of the first or second table, and it is not an empty one. */
  ghost predicate HasEntry(img: seq<u8>, t: Tabs, lo: nat, second: bool, k: nat) {
    && There(img, lo, TableAt(t, second), TableSize(t, second)) && k % RELA == 0 && k + RELA <= TableSize(t, second)
    && (k + RELA) % RELA == 0 && KindAt(img, TableAt(t, second) - lo + k) != 0
  }

  function EntryAt(img: seq<u8>, t: Tabs, lo: nat, second: bool, k: nat): (at: nat)
    requires HasEntry(img, t, lo, second, k)
    ensures at + RELA <= |img|
  {
    TableAt(t, second) - lo + k
  }

  /** No entry that comes later names a byte this one names. */
  ghost predicate LastWord(img: seq<u8>, t: Tabs, lo: nat, second: bool, k: nat)
    requires HasEntry(img, t, lo, second, k)
  {
    var at := TableAt(t, second) - lo;
    && Named(img, lo, at, TableSize(t, second), k + RELA) !! Target(img, lo, at + k)
    && (second || TableNamed(img, lo, TableAt(t, true), TableSize(t, true)) !! Target(img, lo, at + k))
  }

  lemma WholeLands(img: seq<u8>, a: seq<u8>, e: Env, at: nat, size: nat, T: set<nat>, k: nat, b: seq<u8>)
    requires Agree(img, a, T) && at + size <= |img| && at + e.lo != 0
      && TableApart(img, e.lo, e.symtab, at + e.lo, size, T)
    requires TableNamed(img, e.lo, at + e.lo, size) <= T && WholeTable(a, e, at + e.lo, size) == Fine(b) && |b| == |img|
    requires size % RELA == 0 && k % RELA == 0 && k + RELA <= size && (k + RELA) % RELA == 0 && KindAt(img, at + k) != 0
    requires Named(img, e.lo, at, size, k + RELA) !! Target(img, e.lo, at + k)
    ensures Stands(img, e, at + k, b)
  {
    hide Table;
    hide Named;
    hide Apart;
    hide Target;
    hide EntryFine;
    hide Stands;
    hide KindAt;
    TableLands(img, a, e, at, size, 0, T, k, b);
  }

  lemma WholeNamed(img: seq<u8>, a: seq<u8>, e: Env, addr: nat, size: nat, T: set<nat>)
    requires Agree(img, a, T) && TableApart(img, e.lo, e.symtab, addr, size, T)
      && TableNamed(img, e.lo, addr, size) <= T
    requires WholeTable(a, e, addr, size).Fine?
    ensures Agree(a, WholeTable(a, e, addr, size).img, TableNamed(img, e.lo, addr, size))
  {
    hide Table;
    hide Named;
    hide Apart;
    if There(img, e.lo, addr, size) { WritesNamed(img, a, e, addr - e.lo, size, 0, T); }
  }

  /** Where no entry writes into what entries read, the value of every entry that has the last word stands in the
      image. */
  lemma EntryStands(img: seq<u8>, t: Tabs, lo: nat, run: nat, second: bool, k: nat, b: seq<u8>)
    requires TablesApart(img, t, lo) && Relocated(img, t, lo, run) == Fine(b) && |b| == |img|
    requires HasEntry(img, t, lo, second, k) && LastWord(img, t, lo, second, k)
    ensures Stands(img, Env(lo, run, t.symtab, t.strtab), EntryAt(img, t, lo, second, k), b)
  {
    hide WholeTable;
    hide WholeFine;
    hide TableApart;
    hide TableNamed;
    hide TabsOk;
    hide Stands;
    hide EntryFine;
    hide KindAt;
    hide Target;
    hide Named;
    var e, T := Env(lo, run, t.symtab, t.strtab), AllNamed(img, t, lo);
    var r := WholeTable(img, e, t.rela, t.relasz);
    WholeAgrees(img, img, e, t.rela, t.relasz, T);
    var addr, size := TableAt(t, true), TableSize(t, true);
    if second {
      WholeLands(img, r.img, e, addr - lo, size, T, k, b);
    } else {
      WholeLands(img, img, e, t.rela - lo, t.relasz, T, k, r.img);
      WholeNamed(img, r.img, e, addr, size, T);
      StillStands(img, e, t.rela - lo + k, r.img, b, TableNamed(img, lo, addr, size));
    }
  }

  /** Addresses move by the difference of the run addresses, distances within the image stay. */
  lemma ValueShifts(kind: nat, one: nat, two: nat, x: nat, addend: nat, offset: nat)
    ensures var v, w := ValueOf(kind, one, x, addend, offset), ValueOf(kind, two, x, addend, offset);
            if kind == 2 then w == v else w == (v + two - one) % TWO64
  {
    if kind == 8 {
      ShiftRun(one, two, addend);
    } else if kind == 1 {
      ShiftBoth(one, two, x, addend);
    } else if kind == 2 {
      Distance(one, x, addend, offset);
      Distance(two, x, addend, offset);
    } else {
      ShiftRun(one, two, x);
    }
  }

  lemma ShiftRun(one: int, two: int, x: int)
    ensures (two + x) % TWO64 == ((one + x) % TWO64 + two - one) % TWO64
  {
    Shift(one + x, two - one, TWO64);
  }

  lemma ShiftBoth(one: int, two: int, x: int, a: int)
    ensures ((two + x) % TWO64 + a) % TWO64 == (((one + x) % TWO64 + a) % TWO64 + two - one) % TWO64
  {
    Shift2(one + x, two + x, a);
  }

  /** Two images of one file stand for the same entry by the difference of their run addresses. */
  lemma StandsShifted(img: seq<u8>, e: Env, two: nat, at: nat, a: seq<u8>, b: seq<u8>)
    requires at + RELA <= |img| && Stands(img, e, at, a) && Stands(img, e.(run := two), at, b)
    ensures Moved(img, e, two, at, a, b)
  {
    hide Read64;
    hide Read32;
    hide Read16;
    hide ValueOf;
    hide KindAt;
    var x := if KindAt(img, at) == 8 then 0 else Read64(img, SymbolAt(img, e.symtab, at) - e.lo + 8);
    ValueShifts(KindAt(img, at), e.run, two, x, Read64(img, at + 16), Read64(img, at));
  }

  /** What b has at the entry's place against a: a distance is the same, an address moved with the image. */
  ghost predicate Moved(img: seq<u8>, e: Env, two: nat, at: nat, a: seq<u8>, b: seq<u8>)
    requires at + RELA <= |img|
  {
    && EntryFine(img, e.lo, e.symtab, at) && KindAt(img, at) != 0 && |img| == |a| == |b|
    && (var p := Place(img, e.lo, e.symtab, at);
        if KindAt(img, at) == 2 then Read32(b, p) == Read32(a, p)
            else Read64(b, p) == (Read64(a, p) + two - e.run) % TWO64)
  }

  /** Where no entry writes into what entries read: at the place of every entry that has the last word, two images
      differ by the difference of their run addresses modulo 2^64, or, for a distance, not at all. */
  lemma RunAddressMoves(img: seq<u8>, t: Tabs, lo: nat, one: nat, two: nat, second: bool, k: nat, a: seq<u8>,
      b: seq<u8>)
    requires TablesApart(img, t, lo) && Relocated(img, t, lo, one) == Fine(a) && Relocated(img, t, lo, two) == Fine(b)
    requires |a| == |img| == |b| && HasEntry(img, t, lo, second, k) && LastWord(img, t, lo, second, k)
    ensures Moved(img, Env(lo, one, t.symtab, t.strtab), two, EntryAt(img, t, lo, second, k), a, b)
  {
    hide Relocated;
    hide TablesApart;
    hide LastWord;
    hide Stands;
    hide Moved;
    hide EntryFine;
    hide KindAt;
    EntryStands(img, t, lo, one, second, k, a);
    EntryStands(img, t, lo, two, second, k, b);
    StandsShifted(img, Env(lo, one, t.symtab, t.strtab), two, EntryAt(img, t, lo, second, k), a, b);
  }

  lemma Shift(x: int, d: int, m: int)
    requires m > 0
    ensures (x + d) % m == (x % m + d) % m
  {
    var q := x / m;
    assert x == q * m + x % m;
    var y := x % m + d;
    DivModUnique(x + d, q + y / m, y % m, m);
  }

  lemma Shift2(x: int, y: int, a: int)
    ensures (y % TWO64 + a) % TWO64 == ((x % TWO64 + a) % TWO64 + (y - x)) % TWO64
  {
    Shift(y, a, TWO64);
    Shift(x, a, TWO64);
    Shift(x + a, y - x, TWO64);
  }

  lemma Distance(run: int, x: int, a: int, o: int)
    ensures ((run + x) % TWO64 + a - (run + o)) % TWO32 == (x + a - o) % TWO32
  {
    var q := (run + x) / TWO64;
    assert (run + x) % TWO64 + a - (run + o) == (x + a - o) + (0 - q * TWO32) * TWO32;
    MultipleGone(x + a - o, 0 - q * TWO32, TWO32);
  }

  lemma MultipleGone(x: int, k: int, m: int)
    requires m > 0
    ensures (x + k * m) % m == x % m
  {
    DivModUnique(x + k * m, x / m + k, x % m, m);
  }
}
