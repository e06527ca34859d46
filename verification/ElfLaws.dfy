/** What elf_layout's words and one relocation come to in bytes and field offsets of the ELF-64 and x86-64 formats
    (kernel/app.c:4370-4475, kernel/app.c:4512-4546). */
module ElfLaws {
  import opened Arith
  import opened Machine
  import opened Elf
  import opened ElfValues
  import Radix

  lemma LeFields(b: seq<u8>, at: nat, two: nat, four: nat, eight: nat)
    requires two == 2 && four == 4 && eight == 8
    ensures at + 2 <= |b| ==> Read16(b, at) == Le(b[at..at + two])
    ensures at + 4 <= |b| ==> Read32(b, at) == Le(b[at..at + four])
    ensures at + 8 <= |b| ==> Read64(b, at) == Le(b[at..at + eight])
  {
    hide Le;
    hide Read16;
    hide Read32;
    hide Read64;
    if at + 2 <= |b| { Field16(b, at, two); }
    if at + 4 <= |b| { Field32(b, at, four); }
    if at + 8 <= |b| { Field64(b, at, eight); }
  }

  lemma TwoBytes(s: seq<u8>, n: nat)
    requires |s| == n == 2
    ensures Le(s) == s[0] + 0x100 * (s[1] as int)
  {
    assert Pow(0x100, 0) == 1 && Pow(0x100, 1) == 0x100;
    assert Radix.Value(0x100, s, 0) == 0;
    assert Radix.Value(0x100, s, 1) == s[0];
  }

  lemma Weights()
    ensures Pow(0x100, 2) == 0x1_0000 && Pow(0x100, 4) == 0x1_0000_0000
  {
    assert Pow(0x100, 2) == 0x1_0000;
    PowAdd(0x100, 2, 2);
  }

  lemma Field16(b: seq<u8>, at: nat, n: nat)
    requires n == 2 && at + n <= |b|
    ensures Read16(b, at) == Le(b[at..at + n])
  {
    hide Le;
    TwoBytes(b[at..at + n], n);
  }

  lemma Field32(b: seq<u8>, at: nat, n: nat)
    requires n == 4 && at + n <= |b|
    ensures Read32(b, at) == Le(b[at..at + n])
  {
    hide Le;
    hide Read16;
    Field16(b, at, 2);
    Field16(b, at + 2, 2);
    Weights();
    LeConcat(b[at..at + 2], b[at + 2..at + n]);
    assert b[at..at + n] == b[at..at + 2] + b[at + 2..at + n];
  }

  lemma Field64(b: seq<u8>, at: nat, n: nat)
    requires n == 8 && at + n <= |b|
    ensures Read64(b, at) == Le(b[at..at + n])
  {
    hide Le;
    hide Read32;
    Field32(b, at, 4);
    Field32(b, at + 4, 4);
    Weights();
    LeConcat(b[at..at + 4], b[at + 4..at + n]);
    assert b[at..at + n] == b[at..at + 4] + b[at + 4..at + n];
  }

  // ---- the layout --------------------------------------------------------------------------------------------

  /** The file header taken: the magic number, 64-bit, little-endian, version 1, a shared object for x86-64, and a
      table of at least one program header of 56 bytes inside the file. */
  lemma HeaderIs(f: seq<u8>, table: nat, count: nat, eight: nat)
    requires eight == 8
    requires |f| >= 64 ==> table == Le(f[32..32 + eight]) && count == f[56] + 0x100 * (f[57] as int)
    ensures HeaderOk(f) <==>
      && |f| >= 64 && f[0] == 0x7f && f[1] == 'E' as int && f[2] == 'L' as int && f[3] == 'F' as int
      && f[4] == 2 && f[5] == 1 && f[6] == 1
      && f[16] == 3 && f[17] == 0 && f[18] == 62 && f[19] == 0
      && f[20] == 1 && f[21] == 0 && f[22] == 0 && f[23] == 0
      && f[52] == 64 && f[53] == 0 && f[54] == 56 && f[55] == 0
      && count > 0 && table >= 64 && table + 56 * count <= |f|
  {
    hide Le;
    hide Read64;
    if |f| >= 64 {
      Field64(f, 32, eight);
      TableFits(|f|, table, count);
    }
  }

  lemma TableFits(size: nat, table: nat, count: nat)
    ensures table <= size ==> (count <= (size - table) / 56 <==> table + 56 * count <= size)
  {}

  /** A program header's fields. */
  lemma HeaderFields(f: seq<u8>, i: nat, at: nat, p: Phdr)
    requires HeaderOk(f) && i < PhNum(f) && at == Read64(f, 32) + 56 * i && p == Header(f, i)
    ensures at + 56 <= |f| && p.kind == Read32(f, at) && p.flags == Read32(f, at + 4)
    ensures p.offset == Read64(f, at + 8) && p.vaddr == Read64(f, at + 16)
    ensures p.filesz == Read64(f, at + 32) && p.memsz == Read64(f, at + 40)
  {
    hide Read64;
    hide Read32;
    hide Read16;
    HeadersInFile(f, i);
  }

  /** The span: the lowest address and the highest end of the segments that take room, if there are any. */
  lemma {:induction false} SpanIs(f: seq<u8>, n: nat)
    requires HeaderOk(f) && n <= PhNum(f)
    ensures forall i | 0 <= i < n && Header(f, i).kind == 1 && Header(f, i).memsz > 0 ::
              Low(f, n) <= Header(f, i).vaddr && Header(f, i).vaddr + Header(f, i).memsz <= High(f, n)
    ensures High(f, n) == 0
         || exists i :: 0 <= i < n && Header(f, i).kind == 1 && Header(f, i).vaddr + Header(f, i).memsz == High(f, n)
    ensures Low(f, n) == 0xffff_ffff_ffff_ffff
         || exists i :: 0 <= i < n && Header(f, i).kind == 1 && Header(f, i).memsz > 0
                        && Header(f, i).vaddr == Low(f, n)
  {
    hide Header;
    if n > 0 { SpanIs(f, n - 1); }
  }

  /** What is loaded: no interpreter; segments inside the file, at least as long in memory, below 2^64; an entry point
      in an executable one; at most 64 megabytes from the page of the lowest address to the highest end; at most one
      dynamic table, of whole entries, inside the file, the span and a segment. */
  lemma LoadableIs(f: seq<u8>, lo: nat, hi: nat)
    requires HeaderOk(f) && lo == Low(f, PhNum(f)) / 4096 * 4096 && hi == High(f, PhNum(f))
    ensures Loadable(f) <==>
      && (forall i :: 0 <= i < PhNum(f) ==>
            var p := Header(f, i);
            && p.kind != 3
            && (p.kind == 1 && p.memsz == 0 ==> p.filesz == 0)
            && (p.kind == 1 && p.memsz > 0 ==>
                  p.offset + p.filesz <= |f| && p.filesz <= p.memsz && p.vaddr + p.memsz < 0x1_0000_0000_0000_0000))
      && (exists i :: 0 <= i < PhNum(f) && Header(f, i).kind == 1 && Header(f, i).flags % 2 == 1
                      && Header(f, i).vaddr <= Read64(f, 24) < Header(f, i).vaddr + Header(f, i).memsz)
      && Low(f, PhNum(f)) < hi <= lo + 0x400_0000
      && (forall i :: 0 <= i < PhNum(f) && Header(f, i).kind == 2 ==>
            var p := Header(f, i);
            && p.offset + p.filesz <= |f| && p.filesz <= p.memsz && p.memsz >= 16 && p.memsz % 16 == 0
            && lo <= p.vaddr && p.vaddr + p.memsz <= hi
            && exists j :: 0 <= j < PhNum(f) && Header(f, j).kind == 1 && Header(f, j).vaddr <= p.vaddr
                           && p.vaddr + p.memsz <= Header(f, j).vaddr + Header(f, j).memsz)
      && (forall i, j :: 0 <= i < j < PhNum(f) ==> Header(f, i).kind != 2 || Header(f, j).kind != 2)
  {
    hide Header;
    hide Read64;
    hide Low;
    hide High;
  }

  // ---- one relocation ----------------------------------------------------------------------------------------

  /** A relocation that is carried out: kind 8 puts the run address plus the addend at its offset, 6 and 7 the
      symbol's address, 1 that plus the addend, each in eight bytes; 2 puts the symbol's distance from the place plus
      the addend in four, wherever the image runs; 0 does nothing, and there are no others. */
  lemma EntryDone(img: seq<u8>, e: Env, at: nat, offset: nat, kind: nat, index: nat, addend: nat, r: seq<u8>, sym: int,
      x: nat)
    requires at + 24 <= |img| && offset == Read64(img, at) && addend == Read64(img, at + 16)
    requires kind == Read64(img, at + 8) % 0x1_0000_0000 && index == Read64(img, at + 8) / 0x1_0000_0000
    requires Relocate(img, e, at) == Fine(r)
    requires sym == e.symtab + 24 * index - e.lo
    requires x == if 0 <= sym && sym + 24 <= |img| then Read64(img, sym + 8) else 0
    ensures kind == 0 || kind == 1 || kind == 2 || kind == 6 || kind == 7 || kind == 8
    ensures kind == 0 ==> r == img
    ensures kind != 0 ==>
      e.lo <= offset && offset - e.lo + (if kind == 2 then 4 else 8) <= |img| == |r|
    ensures kind == 1 || kind == 2 || kind == 6 || kind == 7 ==> e.symtab != 0 && 0 <= sym && sym + 24 <= |img|
    ensures kind == 8 ==> Read64(r, offset - e.lo) == (e.run + addend) % 0x1_0000_0000_0000_0000
    ensures kind == 6 || kind == 7 ==> Read64(r, offset - e.lo) == (e.run + x) % 0x1_0000_0000_0000_0000
    ensures kind == 1 ==> Read64(r, offset - e.lo) == (e.run + x + addend) % 0x1_0000_0000_0000_0000
    ensures kind == 2 ==> Read32(r, offset - e.lo) == (x + addend - offset) % 0x1_0000_0000
  {
    hide Read64;
    hide Read32;
    hide Read16;
    hide Write;
    hide SymbolName;
    if kind != 0 {
      var p, s := offset - e.lo, (e.run + x) % TWO64;
      if kind == 8 {
        ReadBack8(img, p, (e.run + addend) % TWO64, 8);
      } else if kind == 1 {
        ReadBack8(img, p, (s + addend) % TWO64, 8);
        TwoSums(e.run + x, addend);
      } else if kind == 2 {
        ReadBack4(img, p, (s + addend - (e.run + offset)) % TWO32, 4);
        Distance(e.run, x, addend, offset);
      } else {
        ReadBack8(img, p, s, 8);
      }
    }
  }

  lemma TwoSums(a: nat, b: nat)
    ensures (a % TWO64 + b) % TWO64 == (a + b) % TWO64
  {
    ModMod(a, TWO64);
    CongAdd(a % TWO64, a, b, b, TWO64);
  }

  lemma Distance(run: nat, x: nat, addend: nat, offset: nat)
    ensures ((run + x) % TWO64 + addend - (run + offset)) % TWO32 == (x + addend - offset) % TWO32
  {
    var q := (run + x) / TWO64;
    CongMultiple((run + x) % TWO64 + addend - (run + offset), x + addend - offset, -(q * TWO32), TWO32);
  }
}
