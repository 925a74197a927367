/** elf_rel_load of kexec-elf-rel.c with the i386 relocations of kexec-elf-rel-x86.c. */
module ElfRel {
  import opened Bits
  import opened Buffers
  import opened Memory
  import opened Holes
  import opened Kexec
  import opened ElfLayout

  const R_386_32 := 1
  const R_386_PC32 := 2
  const SHN_UNDEF := 0
  const SHN_ABS := 0xfff1
  const SHN_COMMON := 0xfff2

  /** The 32-bit word at o. */
  function Word(buf: seq<byte>, o: nat): nat
    requires o + 4 <= |buf|
  {
    FromLittle(buf[o..o + 4])
  }

  /** One relocation: add `add` to the word at `off`. */
  datatype Patch = Patch(off: nat, add: nat)

  predicate Within(ps: seq<Patch>, n: nat) {
    forall i :: 0 <= i < |ps| ==> ps[i].off + 4 <= n
  }

  function Apply(buf: seq<byte>, p: Patch): (r: seq<byte>)
    requires p.off + 4 <= |buf|
    ensures |r| == |buf|
  {
    Spliced(buf, p.off, Little(Word32(Word(buf, p.off) + p.add), 4))
  }

  function ApplyAll(buf: seq<byte>, ps: seq<Patch>): (r: seq<byte>)
    requires Within(ps, |buf|)
    ensures |r| == |buf|
  {
    if ps == [] then buf
    else
      var n := |ps| - 1;
      assert ps[n] in ps;
      Apply(ApplyAll(buf, ps[..n]), ps[n])
  }

  predicate Separate(ps: seq<Patch>) {
    forall i, j :: 0 <= i < j < |ps| ==> ps[i].off + 4 <= ps[j].off || ps[j].off + 4 <= ps[i].off
  }

  predicate Hits(ps: seq<Patch>, o: int) {
    exists i :: 0 <= i < |ps| && ps[i].off <= o < ps[i].off + 4
  }

  lemma ApplyHere(buf: seq<byte>, p: Patch)
    requires p.off + 4 <= |buf|
    ensures Word(Apply(buf, p), p.off) == Word32(Word(buf, p.off) + p.add)
  {
    hide Little, FromLittle;
    var w := Word32(Word(buf, p.off) + p.add);
    assert Apply(buf, p)[p.off..p.off + 4] == Little(w, 4);
    LittleRoundTrip(w, 4);
    WordWidths();
  }

  lemma {:induction false} Untouched(buf: seq<byte>, ps: seq<Patch>, o: nat)
    requires Within(ps, |buf|) && o < |buf| && !Hits(ps, o)
    ensures ApplyAll(buf, ps)[o] == buf[o]
  {
    hide Little;
    if ps != [] {
      var n := |ps| - 1;
      assert !Hits(ps[..n], o);
      Untouched(buf, ps[..n], o);
    }
  }

  lemma WordUntouched(buf: seq<byte>, ps: seq<Patch>, o: nat)
    requires Within(ps, |buf|) && o + 4 <= |buf|
    requires forall i :: 0 <= i < |ps| ==> ps[i].off + 4 <= o || o + 4 <= ps[i].off
    ensures Word(ApplyAll(buf, ps), o) == Word(buf, o)
  {
    hide FromLittle, ApplyAll;
    var r := ApplyAll(buf, ps);
    forall k | o <= k < o + 4 ensures r[k] == buf[k] { Untouched(buf, ps, k); }
    assert r[o..o + 4] == buf[o..o + 4];
  }

  /** Relocations that do not overlap each add to their own word, whatever their order. */
  lemma {:induction false} EachAdds(buf: seq<byte>, ps: seq<Patch>, i: nat)
    requires Within(ps, |buf|) && Separate(ps) && i < |ps|
    ensures Word(ApplyAll(buf, ps), ps[i].off) == Word32(Word(buf, ps[i].off) + ps[i].add)
  {
    hide Word, Apply;
    var n := |ps| - 1;
    var init := ps[..n];
    var b := ApplyAll(buf, init);
    if i == n {
      WordUntouched(buf, init, ps[n].off);
      ApplyHere(b, ps[n]);
    } else {
      EachAdds(buf, init, i);
      WordUntouched(b, [ps[n]], ps[i].off);
      assert ApplyAll(b, [ps[n]]) == Apply(b, ps[n]) by { assert [ps[n]][..0] == []; }
    }
  }

  predicate IsReloc(s: Section) { s.kind.REL? || s.kind.RELA? }

  /** Section k is a relocation section that elf_rel_load acts on: it patches a loaded section, and its symbol
      table names its strings. */
  predicate Acts(secs: seq<Section>, k: nat)
    requires k < |secs|
  {
    && IsReloc(secs[k]) && secs[k].info < |secs| && secs[k].link < |secs|
    && secs[secs[k].info].alloc && secs[secs[k].link].link <= |secs|
  }

  /** elf_rel_load does not die of the section numbers in section k. */
  predicate Numbered(secs: seq<Section>, k: nat)
    requires k < |secs|
  {
    IsReloc(secs[k]) ==> secs[k].info <= |secs| && secs[k].link <= |secs|
  }

  /** What the source relies on without checking: no index is exactly e_shnum, relocations patch words inside
      sections with file data, and name symbols that exist. */
  ghost predicate Linkable(secs: seq<Section>) {
    && WellFormed(secs)
    && (forall k :: 0 <= k < |secs| && IsReloc(secs[k]) ==> secs[k].info != |secs| && secs[k].link != |secs|)
    && (forall k, j :: 0 <= k < |secs| && Acts(secs, k) && 0 <= j < |secs[k].rels| ==> RelFits(secs, k, j))
  }

  predicate RelFits(secs: seq<Section>, k: nat, j: nat)
    requires k < |secs| && Acts(secs, k) && j < |secs[k].rels|
  {
    var rel, target, symtab := secs[k].rels[j], secs[secs[k].info], secs[secs[k].link];
    && !target.kind.NOBITS? && rel.offset + 4 <= target.size
    && rel.sym < |symtab.syms| && symtab.syms[rel.sym].shndx != |secs|
  }

  function SymOf(secs: seq<Section>, k: nat, j: nat): Sym
    requires k < |secs| && Acts(secs, k) && j < |secs[k].rels| && RelFits(secs, k, j)
  {
    secs[secs[k].link].syms[secs[k].rels[j].sym]
  }

  /** The relocation passes elf_rel_load's checks and machine_apply_elf_rel knows its type. */
  predicate Applies(secs: seq<Section>, k: nat, j: nat)
    requires k < |secs| && Acts(secs, k) && j < |secs[k].rels| && RelFits(secs, k, j)
  {
    var sym := SymOf(secs, k, j);
    && sym.shndx != SHN_UNDEF && sym.shndx != SHN_COMMON
    && (sym.shndx == SHN_ABS || sym.shndx <= |secs|)
    && (secs[k].rels[j].kind == R_386_32 || secs[k].rels[j].kind == R_386_PC32)
  }

  /** The run-time address of section i, once loaded at base. */
  function AddrOf(secs: seq<Section>, base: nat, i: nat): nat
    requires WellFormed(secs) && i < |secs|
  {
    if secs[i].alloc then base + Offset(secs, i) else secs[i].addr
  }

  function Value(secs: seq<Section>, base: nat, k: nat, j: nat): nat
    requires WellFormed(secs) && k < |secs| && Acts(secs, k) && j < |secs[k].rels|
    requires RelFits(secs, k, j) && Applies(secs, k, j)
  {
    var sym := SymOf(secs, k, j);
    sym.value + (if sym.shndx == SHN_ABS then 0 else AddrOf(secs, base, sym.shndx))
    + if secs[k].kind.REL? then 0 else secs[k].rels[j].addend
  }

  function PatchOf(secs: seq<Section>, base: nat, k: nat, j: nat): Patch
    requires WellFormed(secs) && k < |secs| && Acts(secs, k) && j < |secs[k].rels|
    requires RelFits(secs, k, j) && Applies(secs, k, j)
  {
    var off := Offset(secs, secs[k].info) + secs[k].rels[j].offset;
    var value := Value(secs, base, k, j);
    Patch(off, Word32(if secs[k].rels[j].kind == R_386_PC32 then value - (base + off) else value))
  }

  /** How often the load address enters the patched word: once through a loaded symbol, minus once if relative. */
  function Moves(secs: seq<Section>, k: nat, j: nat): int
    requires k < |secs| && Acts(secs, k) && j < |secs[k].rels| && RelFits(secs, k, j) && Applies(secs, k, j)
  {
    var sym := SymOf(secs, k, j);
    (if sym.shndx != SHN_ABS && secs[sym.shndx].alloc then 1 else 0)
    - if secs[k].rels[j].kind == R_386_PC32 then 1 else 0
  }

  /** No section number among the first n sections is out of range, and every relocation applies. */
  ghost predicate AllApply(secs: seq<Section>, n: nat)
    requires Linkable(secs) && n <= |secs|
  {
    && (forall k :: 0 <= k < n ==> Numbered(secs, k))
    && forall k, j :: 0 <= k < n && Acts(secs, k) && 0 <= j < |secs[k].rels| ==> Applies(secs, k, j)
  }

  /** Section k's first m relocations, as (k, j) pairs. */
  datatype Site = Site(k: nat, j: nat)

  function Sites(secs: seq<Section>, n: nat): seq<Site>
    requires n <= |secs|
  {
    if n == 0 then []
    else
      var k: nat := n - 1;
      Sites(secs, k) + if Acts(secs, k) then seq(|secs[k].rels|, (j: nat) => Site(k, j)) else []
  }

  ghost predicate SiteOk(secs: seq<Section>, s: Site) {
    && WellFormed(secs) && s.k < |secs| && Acts(secs, s.k) && s.j < |secs[s.k].rels|
    && RelFits(secs, s.k, s.j) && Applies(secs, s.k, s.j)
  }

  ghost predicate SitesOk(secs: seq<Section>, ss: seq<Site>) {
    forall i :: 0 <= i < |ss| ==> SiteOk(secs, ss[i])
  }

  /** The patches of a list of relocation sites, for load address base. */
  function Patches(secs: seq<Section>, base: nat, ss: seq<Site>): (ps: seq<Patch>)
    requires SitesOk(secs, ss)
    ensures |ps| == |ss|
    ensures forall i :: 0 <= i < |ss| ==> ps[i] == PatchOf(secs, base, ss[i].k, ss[i].j)
  {
    if ss == [] then []
    else
      var n := |ss| - 1;
      assert SiteOk(secs, ss[n]);
      Patches(secs, base, ss[..n]) + [PatchOf(secs, base, ss[n].k, ss[n].j)]
  }

  lemma PatchesFit(secs: seq<Section>, base: nat, ss: seq<Site>)
    requires SitesOk(secs, ss) && WellFormed(secs)
    ensures Within(Patches(secs, base, ss), BufSize(secs))
  {
    forall i | 0 <= i < |ss| ensures PatchOf(secs, base, ss[i].k, ss[i].j).off + 4 <= BufSize(secs) {
      assert SiteOk(secs, ss[i]);
      assert 0 % BufAlign(secs) == 0;
      OffsetInBounds(secs, 0, secs[ss[i].k].info);
    }
  }

  /** The image before relocation: every section with file data copied to its place over whatever malloc gave. */
  function Copied(secs: seq<Section>, raw: seq<byte>, n: nat): (r: seq<byte>)
    requires WellFormed(secs) && |raw| == BufSize(secs) && n <= |secs|
    ensures |r| == |raw|
  {
    if n == 0 then raw
    else if secs[n - 1].Loads(false) then
      OffsetIsInside(secs, n - 1);
      Spliced(Copied(secs, raw, n - 1), Offset(secs, n - 1), secs[n - 1].data)
    else Copied(secs, raw, n - 1)
  }

  lemma OffsetIsInside(secs: seq<Section>, i: nat)
    requires WellFormed(secs) && i < |secs| && secs[i].Loads(false)
    ensures Offset(secs, i) + secs[i].size <= BufSize(secs)
  {
    assert 0 % BufAlign(secs) == 0;
    OffsetInBounds(secs, 0, i);
  }

  /** After copying, each section's bytes are intact at its place. */
  lemma {:induction false} CopiedIntact(secs: seq<Section>, raw: seq<byte>, n: nat, i: nat)
    requires WellFormed(secs) && |raw| == BufSize(secs) && i < n <= |secs| && secs[i].Loads(false)
    ensures Offset(secs, i) + secs[i].size <= BufSize(secs)
    ensures Copied(secs, raw, n)[Offset(secs, i)..Offset(secs, i) + secs[i].size] == secs[i].data
  {
    OffsetIsInside(secs, i);
    hide Offset, BufSize;
    if i < n - 1 {
      CopiedIntact(secs, raw, n - 1, i);
      if secs[n - 1].Loads(false) {
        OffsetIsInside(secs, n - 1);
        SectionsApart(secs, i, n - 1);
      }
    }
  }

  /** The loaded image. */
  function Image(secs: seq<Section>, raw: seq<byte>, base: nat, ss: seq<Site>): (r: seq<byte>)
    requires SitesOk(secs, ss) && WellFormed(secs) && |raw| == BufSize(secs)
    ensures |r| == BufSize(secs)
  {
    PatchesFit(secs, base, ss);
    ApplyAll(Copied(secs, raw, |secs|), Patches(secs, base, ss))
  }

  function PatchValue(secs: seq<Section>, base: nat, k: nat, j: nat): int
    requires SiteOk(secs, Site(k, j))
  {
    var off := Offset(secs, secs[k].info) + secs[k].rels[j].offset;
    Value(secs, base, k, j) - if secs[k].rels[j].kind == R_386_PC32 then base + off else 0
  }

  lemma ValueMoves(secs: seq<Section>, b: nat, b': nat, k: nat, j: nat)
    requires SiteOk(secs, Site(k, j))
    ensures PatchValue(secs, b', k, j) == PatchValue(secs, b, k, j) + Moves(secs, k, j) * (b' - b)
  {}

  lemma WordShift(v: int, e: int)
    ensures Word32(v + e) == Word32(Word32(v) + e)
  {}

  /** Moving the load address by d adds Moves * d to the patched word. */
  lemma PatchMoves(secs: seq<Section>, b: nat, b': nat, k: nat, j: nat)
    requires SiteOk(secs, Site(k, j))
    ensures PatchOf(secs, b', k, j).off == PatchOf(secs, b, k, j).off
    ensures PatchOf(secs, b', k, j).add == Word32(PatchOf(secs, b, k, j).add + Moves(secs, k, j) * (b' - b))
  {
    ValueMoves(secs, b, b', k, j);
    WordShift(PatchValue(secs, b, k, j), Moves(secs, k, j) * (b' - b));
    hide Offset, RelFits, Moves, Value;
  }

  lemma AddsCompose(w: int, a: int, d: int)
    ensures Word32(w + Word32(a + d)) == Word32(Word32(w + a) + d)
  {}

  /** The images i' and i differ at `off` by m times the distance d. */
  ghost predicate Shifted(i: seq<byte>, i': seq<byte>, off: nat, m: int, d: int) {
    off + 4 <= |i| == |i'| && Word(i', off) == Word32(Word(i, off) + m * d)
  }

  /** If only the added value of patch i changes by e, so does its word, over buffers that agree on it. */
  lemma {:induction false} PatchedWordMoves(c: seq<byte>, c': seq<byte>, ps: seq<Patch>, ps': seq<Patch>, i: nat,
                                            e: int)
    requires Within(ps, |c|) && Within(ps', |c'|) && Separate(ps) && Separate(ps') && i < |ps| && i < |ps'|
    requires ps'[i].off == ps[i].off && ps'[i].add == Word32(ps[i].add + e)
    requires ps[i].off + 4 <= |c| && ps[i].off + 4 <= |c'| && Word(c', ps[i].off) == Word(c, ps[i].off)
    ensures Word(ApplyAll(c', ps'), ps[i].off) == Word32(Word(ApplyAll(c, ps), ps[i].off) + e)
  {
    hide Word, Apply, ApplyAll, Separate, Within, Word32, FromLittle, Little, Pow256;
    EachAdds(c, ps, i);
    EachAdds(c', ps', i);
    AddsCompose(Word(c, ps[i].off), ps[i].add, e);
  }

  /** The byte at o comes from the file data of a loaded section. */
  ghost predicate InSection(secs: seq<Section>, o: nat)
    requires WellFormed(secs)
  {
    exists i :: 0 <= i < |secs| && secs[i].Loads(false) && Offset(secs, i) <= o < Offset(secs, i) + secs[i].size
  }

  /** Two copies of the object agree on every section, whatever the buffers held before. */
  lemma CopiesAgree(secs: seq<Section>, raw: seq<byte>, raw': seq<byte>, o: nat)
    requires WellFormed(secs) && |raw| == |raw'| == BufSize(secs) && InSection(secs, o)
    ensures o < BufSize(secs) && Copied(secs, raw, |secs|)[o] == Copied(secs, raw', |secs|)[o]
  {
    hide Offset, BufSize, Copied;
    var i :| 0 <= i < |secs| && secs[i].Loads(false) && Offset(secs, i) <= o < Offset(secs, i) + secs[i].size;
    assert secs[i].alloc;
    hide InSection;
    var k: nat := o - Offset(secs, i);
    CopiedByte(secs, raw, i, k);
    CopiedByte(secs, raw', i, k);
    hide WellFormed;
  }

  lemma CopiedByte(secs: seq<Section>, raw: seq<byte>, i: nat, k: nat)
    requires WellFormed(secs) && |raw| == BufSize(secs) && i < |secs| && secs[i].Loads(false) && k < secs[i].size
    ensures Offset(secs, i) + k < BufSize(secs) && k < |secs[i].data|
    ensures Copied(secs, raw, |secs|)[Offset(secs, i) + k] == secs[i].data[k]
  {
    hide Offset, BufSize, Copied;
    CopiedIntact(secs, raw, |secs|, i);
    hide WellFormed;
    var c, o := Copied(secs, raw, |secs|), Offset(secs, i);
    assert c[o..o + secs[i].size][k] == c[o + k];
  }

  /** A relocation patches a word of a section. */
  lemma SiteIsInSection(secs: seq<Section>, base: nat, s: Site, o: nat)
    requires SiteOk(secs, s)
    requires PatchOf(secs, base, s.k, s.j).off <= o < PatchOf(secs, base, s.k, s.j).off + 4
    ensures InSection(secs, o)
  {
    hide Offset, Value, Applies;
    assert secs[secs[s.k].info].Loads(false);
  }

  lemma CopiedWordsAgree(secs: seq<Section>, raw: seq<byte>, raw': seq<byte>, o: nat)
    requires WellFormed(secs) && |raw| == |raw'| == BufSize(secs)
    requires forall x: nat :: o <= x < o + 4 ==> InSection(secs, x)
    ensures o + 4 <= BufSize(secs) && Word(Copied(secs, raw', |secs|), o) == Word(Copied(secs, raw, |secs|), o)
  {
    hide FromLittle, Copied, InSection, BufSize, WellFormed;
    var c, c' := Copied(secs, raw, |secs|), Copied(secs, raw', |secs|);
    forall x: nat | o <= x < o + 4 ensures x < |c| && c[x] == c'[x] { CopiesAgree(secs, raw, raw', x); }
    CopiesAgree(secs, raw, raw', o + 3);
    assert c[o..o + 4] == c'[o..o + 4];
  }

  lemma SiteShifts(secs: seq<Section>, raw: seq<byte>, raw': seq<byte>, b: nat, b': nat, ss: seq<Site>, i: nat)
    requires SitesOk(secs, ss) && WellFormed(secs) && |raw| == |raw'| == BufSize(secs) && i < |ss|
    requires Separate(Patches(secs, b, ss)) && Separate(Patches(secs, b', ss))
    ensures Shifted(Image(secs, raw, b, ss), Image(secs, raw', b', ss), Patches(secs, b, ss)[i].off,
                    Moves(secs, ss[i].k, ss[i].j), b' - b)
  {
    hide Moves, PatchOf, Word, Word32, Copied, ApplyAll, RelFits, Applies, Patches, WellFormed, Within, Separate, Acts,
         InSection;
    PatchesFit(secs, b, ss);
    PatchesFit(secs, b', ss);
    assert SiteOk(secs, ss[i]);
    PatchMoves(secs, b, b', ss[i].k, ss[i].j);
    var off := PatchOf(secs, b, ss[i].k, ss[i].j).off;
    forall x: nat | off <= x < off + 4 ensures InSection(secs, x) { SiteIsInSection(secs, b, ss[i], x); }
    CopiedWordsAgree(secs, raw, raw', off);
    PatchedWordMoves(Copied(secs, raw, |secs|), Copied(secs, raw', |secs|),
                     Patches(secs, b, ss), Patches(secs, b', ss), i,
                     Moves(secs, ss[i].k, ss[i].j) * (b' - b));
  }

  lemma SameOffsets(secs: seq<Section>, b: nat, b': nat, ss: seq<Site>)
    requires SitesOk(secs, ss)
    ensures forall i :: 0 <= i < |ss| ==> Patches(secs, b', ss)[i].off == Patches(secs, b, ss)[i].off
  {}

  /** Base equivariance: loading the same object elsewhere, into a buffer with other contents, changes each relocated
      word by the distance times the number of times the load address enters it, and no other byte of a section. */
  lemma BaseEquivariance(secs: seq<Section>, raw: seq<byte>, raw': seq<byte>, b: nat, b': nat, ss: seq<Site>)
    requires SitesOk(secs, ss) && WellFormed(secs) && |raw| == |raw'| == BufSize(secs)
    requires Separate(Patches(secs, b, ss))
    ensures forall i :: 0 <= i < |ss| ==>
              Shifted(Image(secs, raw, b, ss), Image(secs, raw', b', ss), Patches(secs, b, ss)[i].off,
                      Moves(secs, ss[i].k, ss[i].j), b' - b)
    ensures forall o: nat :: InSection(secs, o) && !Hits(Patches(secs, b, ss), o) ==>
              o < BufSize(secs) && Image(secs, raw', b', ss)[o] == Image(secs, raw, b, ss)[o]
  {
    hide Patches, PatchOf, Copied, ApplyAll, Shifted, Moves, WellFormed, Acts, RelFits, Applies, InSection;
    var ps, ps' := Patches(secs, b, ss), Patches(secs, b', ss);
    PatchesFit(secs, b, ss);
    PatchesFit(secs, b', ss);
    SameOffsets(secs, b, b', ss);
    assert forall i :: 0 <= i < |ss| ==> SiteOk(secs, ss[i]);
    forall i | 0 <= i < |ss|
      ensures Shifted(Image(secs, raw, b, ss), Image(secs, raw', b', ss), ps[i].off,
                      Moves(secs, ss[i].k, ss[i].j), b' - b)
    {
      SiteShifts(secs, raw, raw', b, b', ss, i);
    }
    forall o: nat | InSection(secs, o) && !Hits(ps, o)
      ensures o < BufSize(secs) && Image(secs, raw', b', ss)[o] == Image(secs, raw, b, ss)[o]
    {
      CopiesAgree(secs, raw, raw', o);
      Untouched(Copied(secs, raw, |secs|), ps, o);
      Untouched(Copied(secs, raw', |secs|), ps', o);
    }
  }

  /** Outside the sections, the image keeps what the buffer held. */
  lemma {:induction false} PaddingIsRaw(secs: seq<Section>, raw: seq<byte>, n: nat, o: nat)
    requires WellFormed(secs) && |raw| == BufSize(secs) && n <= |secs| && o < |raw| && !InSection(secs, o)
    ensures Copied(secs, raw, n)[o] == raw[o]
  {
    hide Offset, BufSize;
    if n > 0 {
      PaddingIsRaw(secs, raw, n - 1, o);
      if secs[n - 1].Loads(false) { OffsetIsInside(secs, n - 1); }
    }
  }

  /** When every relocation names a symbol of a loaded section, relative words do not change at all and absolute
      words move with the load address. */
  lemma LoadedSymbols(secs: seq<Section>, raw: seq<byte>, raw': seq<byte>, b: nat, b': nat, ss: seq<Site>, i: nat)
    requires SitesOk(secs, ss) && WellFormed(secs) && |raw| == |raw'| == BufSize(secs) && i < |ss|
    requires Separate(Patches(secs, b, ss))
    requires SiteOk(secs, ss[i])
    requires var sym := SymOf(secs, ss[i].k, ss[i].j); sym.shndx != SHN_ABS && secs[sym.shndx].alloc
    ensures var off := Patches(secs, b, ss)[i].off;
            && off + 4 <= BufSize(secs)
            && Word(Image(secs, raw', b', ss), off)
               == if secs[ss[i].k].rels[ss[i].j].kind == R_386_PC32 then Word(Image(secs, raw, b, ss), off)
                  else Word32(Word(Image(secs, raw, b, ss), off) + (b' - b))
  {
    hide Image, Patches, PatchOf, Separate, Applies, RelFits, Word, Word32, SymOf, Acts, WellFormed, InSection;
    BaseEquivariance(secs, raw, raw', b, b', ss);
    WordIsSmall(Image(secs, raw, b, ss), Patches(secs, b, ss)[i].off);
    var d := b' - b;
    assert 1 * d == d && 0 * d == 0;
  }

  lemma WordIsSmall(buf: seq<byte>, o: nat)
    requires o + 4 <= |buf|
    ensures Word32(Word(buf, o)) == Word(buf, o)
  {
    WordWidths();
  }

  /** Pass 1: the memory footprint. */
  method Measure(shdr: array<Section>) returns (bufAlign: nat, bufsz: nat, bssPad: nat, bsssz: nat)
    requires WellFormed(shdr[..]) && RelSize(shdr[..]) + BufAlign(shdr[..]) <= ULONG_MAX
    ensures bufAlign == BufAlign(shdr[..]) && bufsz == BufSize(shdr[..])
    ensures bufsz + bssPad == BssStart(shdr[..]) && bufsz + bssPad + bsssz == RelSize(shdr[..])
  {
    hide WellFormed, Round, BssStart;
    var bssAlign: nat := 1;
    bufAlign, bufsz, bsssz := 1, 0, 0;
    ghost var secs := shdr[..];
    for i := 0 to shdr.Length
      invariant bufAlign == MaxAlign(secs, i, false) && bssAlign == MaxAlign(secs, i, true)
      invariant bufsz == End(secs, i, false) && bsssz == End(secs, i, true)
    {
      if shdr[i].alloc {
        SectionFits(secs, i);
        var align := shdr[i].align;
        if !shdr[i].kind.NOBITS? {
          if bufAlign < align { bufAlign := align; }
          AlignUpIsRound(bufsz, align);
          bufsz := AlignUp(bufsz, align);
          bufsz := bufsz + shdr[i].size;
        } else {
          if bssAlign < align { bssAlign := align; }
          AlignUpIsRound(bsssz, align);
          bsssz := AlignUp(bsssz, align);
          bsssz := bsssz + shdr[i].size;
        }
      }
    }
    if bufAlign < bssAlign { bufAlign := bssAlign; }
    LowMaskIsRemainder(bufsz, bssAlign);
    bssPad := 0;
    if And(bufsz, bssAlign - 1) != 0 {
      bssPad := bssAlign - And(bufsz, bssAlign - 1);
    }
    PadIsRounding(bufsz, bssAlign, bssPad);
    BssStartIs(secs);
  }

  lemma BssStartIs(secs: seq<Section>)
    requires WellFormed(secs)
    ensures BssStart(secs) == Round(BufSize(secs), MaxAlign(secs, |secs|, true))
  {}

  lemma PadIsRounding(x: nat, a: nat, pad: nat)
    requires a > 0 && pad == if x % a == 0 then 0 else a - x % a
    ensures x + pad == Round(x, a)
  {
    RemainderClears(x, a);
    if x % a != 0 {
      Multiples(x - x % a, a, a);
      ModIs(a, a, 1, 0);
    }
    RoundUnique(x, a, x + pad);
  }

  /** No intermediate sum of either pass leaves a word. */
  lemma SectionFits(secs: seq<Section>, i: nat)
    requires WellFormed(secs) && i < |secs| && secs[i].alloc
    ensures var bss := secs[i].kind.NOBITS?;
            && IsPow2(secs[i].align) && secs[i].align <= BufAlign(secs)
            && Round(End(secs, i, bss), secs[i].align) + secs[i].size <= RelSize(secs)
            && End(secs, i, bss) <= Round(End(secs, i, bss), secs[i].align)
  {
    var bss := secs[i].kind.NOBITS?;
    EndGrows(secs, i, |secs|, bss);
    RoundIsLeast(End(secs, i, bss), secs[i].align);
    RoundIsLeast(BufSize(secs), MaxAlign(secs, |secs|, true));
    assert 0 % BufAlign(secs) == 0;
    BaseAligns(secs, 0, i);
  }

  /** The section table after pass 2 reached section n. */
  ghost predicate MovedUpTo(secs: seq<Section>, t: seq<Section>, base: nat, n: nat)
    requires WellFormed(secs) && n <= |secs|
  {
    && |t| == |secs|
    && (forall i :: n <= i < |secs| ==> t[i] == secs[i])
    && (forall i :: 0 <= i < n ==> Moved(secs, t[i], base, i))
  }

  /** Section i kept everything but its address, which is its place in the image at base. */
  ghost predicate Moved(secs: seq<Section>, t: Section, base: nat, i: nat)
    requires WellFormed(secs) && i < |secs|
  {
    AddrOf(secs, base, i) <= ULONG_MAX && t == secs[i].(addr := AddrOf(secs, base, i))
  }

  lemma MovedNext(secs: seq<Section>, t: seq<Section>, base: nat, i: nat)
    requires WellFormed(secs) && i < |secs| && MovedUpTo(secs, t, base, i)
    ensures t[i] == secs[i]
    ensures !secs[i].alloc ==> MovedUpTo(secs, t, base, i + 1)
    ensures secs[i].alloc && base + Offset(secs, i) <= ULONG_MAX ==>
              MovedUpTo(secs, t[i := secs[i].(addr := base + Offset(secs, i))], base, i + 1)
  {}

  /** Pass 2: gives every loaded section its address and copies its bytes; it ends where pass 1 said it would. */
  method Place(shdr: array<Section>, buf: array<byte>, base: ulong) returns (dataEnd: nat, bssEnd: nat)
    requires WellFormed(shdr[..]) && buf.Length == BufSize(shdr[..])
    requires base % BufAlign(shdr[..]) == 0 && base + RelSize(shdr[..]) + BufAlign(shdr[..]) <= ULONG_MAX
    modifies shdr, buf
    ensures MovedUpTo(old(shdr[..]), shdr[..], base, shdr.Length)
    ensures buf[..] == Copied(old(shdr[..]), old(buf[..]), shdr.Length)
    ensures dataEnd == base + BufSize(old(shdr[..])) && bssEnd == base + RelSize(old(shdr[..]))
  {
    hide WellFormed, Round, Copied, IsPow2, BssStart, MaxAlign;
    ghost var secs, raw := shdr[..], buf[..];
    var bssStart := MeasureBssStart(shdr);
    CopiedNone(secs, raw);
    dataEnd, bssEnd := base, base + bssStart;
    var i := 0;
    while i < shdr.Length
      invariant 0 <= i <= shdr.Length && MovedUpTo(secs, shdr[..], base, i)
      invariant buf[..] == Copied(secs, raw, i)
      invariant dataEnd == base + End(secs, i, false) && bssEnd == base + BssStart(secs) + End(secs, i, true)
    {
      MovedNext(secs, shdr[..], base, i);
      CopiedNext(secs, raw, i);
      if shdr[i].alloc {
        if !shdr[i].kind.NOBITS? {
          dataEnd := PlaceData(secs, shdr, buf, base, i, dataEnd);
        } else {
          bssEnd := PlaceBss(secs, shdr, base, i, bssEnd);
        }
      }
      i := i + 1;
    }
  }

  method PlaceData(ghost secs: seq<Section>, shdr: array<Section>, buf: array<byte>, base: ulong, i: nat, at: nat)
    returns (end: nat)
    requires WellFormed(secs) && i < |secs| == shdr.Length && shdr[i] == secs[i] && secs[i].Loads(false)
    requires base % BufAlign(secs) == 0 && base + RelSize(secs) + BufAlign(secs) <= ULONG_MAX
    requires at == base + End(secs, i, false) && Offset(secs, i) + |secs[i].data| <= buf.Length
    modifies shdr, buf
    ensures base + Offset(secs, i) <= ULONG_MAX
    ensures shdr[..] == old(shdr[..])[i := secs[i].(addr := base + Offset(secs, i))]
    ensures buf[..] == Spliced(old(buf[..]), Offset(secs, i), secs[i].data)
    ensures end == base + Offset(secs, i) + secs[i].size
  {
    hide WellFormed, Offset, RelSize, BssStart, End;
    NextPlace(secs, base, i);
    var dataAddr := AlignUp(at, shdr[i].align);
    var off := dataAddr - base;
    Memcpy(buf, off, shdr[i].data);
    end := dataAddr + shdr[i].size;
    shdr[i] := shdr[i].(addr := dataAddr);
  }

  method PlaceBss(ghost secs: seq<Section>, shdr: array<Section>, base: ulong, i: nat, at: nat) returns (end: nat)
    requires WellFormed(secs) && i < |secs| == shdr.Length && shdr[i] == secs[i] && secs[i].Loads(true)
    requires base % BufAlign(secs) == 0 && base + RelSize(secs) + BufAlign(secs) <= ULONG_MAX
    requires at == base + BssStart(secs) + End(secs, i, true)
    modifies shdr
    ensures base + Offset(secs, i) <= ULONG_MAX
    ensures shdr[..] == old(shdr[..])[i := secs[i].(addr := base + Offset(secs, i))]
    ensures end == base + Offset(secs, i) + secs[i].size
  {
    hide WellFormed, Offset, RelSize, BssStart, End, MaxAlign, BufAlign, IsPow2, AlignUp;
    NextPlace(secs, base, i);
    var bssAddr := AlignUp(at, shdr[i].align);
    end := bssAddr + shdr[i].size;
    shdr[i] := shdr[i].(addr := bssAddr);
  }

  method MeasureBssStart(shdr: array<Section>) returns (r: nat)
    requires WellFormed(shdr[..]) && RelSize(shdr[..]) + BufAlign(shdr[..]) <= ULONG_MAX
    ensures r == BssStart(shdr[..])
  {
    var bufAlign, bufsz, bssPad, bsssz := Measure(shdr);
    r := bufsz + bssPad;
  }

  lemma CopiedNone(secs: seq<Section>, raw: seq<byte>)
    requires WellFormed(secs) && |raw| == BufSize(secs)
    ensures Copied(secs, raw, 0) == raw
  {}

  lemma CopiedNext(secs: seq<Section>, raw: seq<byte>, i: nat)
    requires WellFormed(secs) && |raw| == BufSize(secs) && i < |secs|
    ensures secs[i].Loads(false) ==> Offset(secs, i) + |secs[i].data| <= |raw|
    ensures Copied(secs, raw, i + 1)
         == if secs[i].Loads(false) then Spliced(Copied(secs, raw, i), Offset(secs, i), secs[i].data)
            else Copied(secs, raw, i)
  {
    if secs[i].Loads(false) { OffsetIsInside(secs, i); }
  }

  /** Aligning the running address of pass 2 gives the place pass 1 reckoned with. */
  lemma NextPlace(secs: seq<Section>, base: nat, i: nat)
    requires WellFormed(secs) && i < |secs| && secs[i].alloc && base % BufAlign(secs) == 0
    requires base + RelSize(secs) + BufAlign(secs) <= ULONG_MAX
    ensures IsPow2(secs[i].align)
    ensures var bss := secs[i].kind.NOBITS?;
            var at := base + (if bss then BssStart(secs) else 0) + End(secs, i, bss);
            && at + secs[i].align <= ULONG_SIZE && AlignUp(at, secs[i].align) == base + Offset(secs, i)
    ensures base + Offset(secs, i) + secs[i].size <= base + RelSize(secs)
  {
    hide WellFormed, Round, MaxAlign, BufAlign, IsPow2;
    var bss := secs[i].kind.NOBITS?;
    SectionFits(secs, i);
    OffsetInBounds(secs, base, i);
    var start := base + if bss then BssStart(secs) else 0;
    assert start % secs[i].align == 0 && start + Round(End(secs, i, bss), secs[i].align) <= base + RelSize(secs) by {
      EndGrows(secs, i, |secs|, bss);
      StartAligns(secs, base, i);
    }
    RoundShifts(start, End(secs, i, bss), secs[i].align);
    AlignUpIsRound(start + End(secs, i, bss), secs[i].align);
  }

  lemma StartAligns(secs: seq<Section>, base: nat, i: nat)
    requires WellFormed(secs) && i < |secs| && secs[i].alloc && base % BufAlign(secs) == 0
    ensures 0 < secs[i].align
    ensures (base + if secs[i].kind.NOBITS? then BssStart(secs) else 0) % secs[i].align == 0
  {
    hide Round, MaxAlign, BufAlign;
    BaseAligns(secs, base, i);
    if secs[i].kind.NOBITS? {
      AlignDivides(secs, i, |secs|, true);
      RoundIsLeast(BufSize(secs), MaxAlign(secs, |secs|, true));
      DivisorChain(BssStart(secs), MaxAlign(secs, |secs|, true), secs[i].align);
      Multiples(base, BssStart(secs), secs[i].align);
    }
  }

  /** machine_apply_elf_rel for i386. */
  method ApplyElfRel(buf: array<byte>, kind: nat, location: nat, address: nat, value: nat) returns (r: Outcome<()>)
    requires location + 4 <= buf.Length
    modifies buf
    ensures r.Ok? <==> kind == R_386_32 || kind == R_386_PC32
    ensures r.Ok? ==>
      var add := Word32(if kind == R_386_PC32 then value - address else value);
      buf[..] == Apply(old(buf[..]), Patch(location, add))
    ensures r.Die? ==> buf[..] == old(buf[..])
  {
    var add;
    if kind == R_386_32 {
      add := value;
    } else if kind == R_386_PC32 {
      add := value - address;
    } else {
      return Die;
    }
    var word := Word(buf[..], location);
    WordShift(add, word);
    Memcpy(buf, location, Little(Word32(word + add), 4));
    r := Ok(());
  }

  lemma MovedAddr(secs: seq<Section>, t: seq<Section>, base: nat, i: nat)
    requires WellFormed(secs) && MovedUpTo(secs, t, base, |secs|) && i < |secs|
    ensures |t| == |secs| && AddrOf(secs, base, i) <= ULONG_MAX && t[i] == secs[i].(addr := AddrOf(secs, base, i))
  {
    assert Moved(secs, t[i], base, i);
  }

  /** The body of the relocation loops, for entry j of relocation section k. */
  method RelocateOne(ghost secs: seq<Section>, shdr: array<Section>, buf: array<byte>, base: ulong, k: nat, j: nat)
    returns (r: Outcome<()>)
    requires WellFormed(secs) && MovedUpTo(secs, shdr[..], base, |secs|) && buf.Length == BufSize(secs)
    requires k < |secs| && Acts(secs, k) && j < |secs[k].rels| && RelFits(secs, k, j)
    modifies buf
    ensures r.Ok? <==> Applies(secs, k, j)
    ensures r.Ok? ==> PatchOf(secs, base, k, j).off + 4 <= buf.Length
    ensures r.Ok? ==> buf[..] == Apply(old(buf[..]), PatchOf(secs, base, k, j))
  {
    hide WellFormed, MovedUpTo, Offset, Word32, Apply, RelSize, BufSize;
    MovedAddr(secs, shdr[..], base, k);
    MovedAddr(secs, shdr[..], base, secs[k].info);
    MovedAddr(secs, shdr[..], base, secs[k].link);
    OffsetIsInside(secs, secs[k].info);
    var rel := shdr[k].rels[j];
    var section := shdr[shdr[k].info];
    var location := section.addr - base + rel.offset;
    var address := section.addr + rel.offset;
    var sym := shdr[shdr[k].link].syms[rel.sym];
    if sym.shndx == SHN_UNDEF || sym.shndx == SHN_COMMON {
      return Die;
    }
    var secBase := 0;
    if sym.shndx != SHN_ABS {
      if sym.shndx > shdr.Length {
        return Die;
      }
      MovedAddr(secs, shdr[..], base, sym.shndx);
      secBase := shdr[sym.shndx].addr;
    }
    var value := sym.value + secBase + if shdr[k].kind.REL? then 0 else rel.addend;
    r := ApplyElfRel(buf, rel.kind, location, address, value);
  }

  /** Relocation sites in the order the loops reach them: those of the sections before k, then j of section k. */
  function SitesTo(secs: seq<Section>, k: nat, j: nat): seq<Site>
    requires k <= |secs|
  {
    Sites(secs, k) + seq(j, (x: nat) => Site(k, x))
  }

  ghost predicate Relocated(secs: seq<Section>, base: nat, raw: seq<byte>, ss: seq<Site>, buf: seq<byte>)
    requires WellFormed(secs)
  {
    && SitesOk(secs, ss) && |raw| == BufSize(secs) && Within(Patches(secs, base, ss), |raw|)
    && buf == ApplyAll(raw, Patches(secs, base, ss))
  }

  lemma RelocatedNext(secs: seq<Section>, base: nat, raw: seq<byte>, ss: seq<Site>, b: seq<byte>, s: Site, c: seq<byte>)
    requires WellFormed(secs) && Relocated(secs, base, raw, ss, b) && SiteOk(secs, s)
    requires PatchOf(secs, base, s.k, s.j).off + 4 <= |b| && c == Apply(b, PatchOf(secs, base, s.k, s.j))
    ensures Relocated(secs, base, raw, ss + [s], c)
  {
    hide PatchOf, Apply, BufSize;
    var ps := Patches(secs, base, ss);
    assert (ss + [s])[..|ss|] == ss;
    assert SitesOk(secs, ss + [s]);
    assert Patches(secs, base, ss + [s]) == ps + [PatchOf(secs, base, s.k, s.j)];
    assert (ps + [PatchOf(secs, base, s.k, s.j)])[..|ps|] == ps;
  }

  lemma NothingRelocated(secs: seq<Section>, base: nat, raw: seq<byte>)
    requires WellFormed(secs) && |raw| == BufSize(secs)
    ensures Relocated(secs, base, raw, Sites(secs, 0), raw)
  {}

  lemma SitesNext(secs: seq<Section>, k: nat, j: nat)
    requires k < |secs|
    ensures SitesTo(secs, k, 0) == Sites(secs, k)
    ensures SitesTo(secs, k, j + 1) == SitesTo(secs, k, j) + [Site(k, j)]
    ensures Sites(secs, k + 1) == if Acts(secs, k) then SitesTo(secs, k, |secs[k].rels|) else Sites(secs, k)
  {}

  /** Pass 3: applies every relocation, in table order, or dies at the first that does not apply. */
  method Relocate(ghost secs: seq<Section>, shdr: array<Section>, buf: array<byte>, base: ulong)
    returns (r: Outcome<()>)
    requires Linkable(secs) && MovedUpTo(secs, shdr[..], base, |secs|) && buf.Length == BufSize(secs)
    modifies buf
    ensures r.Ok? <==> AllApply(secs, |secs|)
    ensures r.Ok? ==> Relocated(secs, base, old(buf[..]), Sites(secs, |secs|), buf[..])
  {
    hide MovedUpTo, Sites, SitesTo, Relocated, Applies, RelFits, WellFormed;
    NothingRelocated(secs, base, buf[..]);
    var k := 0;
    assert shdr.Length == |secs| by { MovedLength(secs, shdr[..], base); }
    while k < shdr.Length
      invariant 0 <= k <= shdr.Length && AllApply(secs, k)
      invariant Relocated(secs, base, old(buf[..]), Sites(secs, k), buf[..])
    {
      MovedAddr(secs, shdr[..], base, k);
      SitesNext(secs, k, 0);
      if IsReloc(shdr[k]) {
        if shdr[k].info > shdr.Length || shdr[k].link > shdr.Length {
          assert !Numbered(secs, k);
          return Die;
        }
        MovedAddr(secs, shdr[..], base, secs[k].info);
        MovedAddr(secs, shdr[..], base, secs[k].link);
        if shdr[shdr[k].info].alloc && shdr[shdr[k].link].link <= shdr.Length {
          r := RelocateSection(secs, shdr, buf, base, k, old(buf[..]));
          if r.Die? {
            return Die;
          }
        }
      }
      k := k + 1;
    }
    r := Ok(());
  }

  lemma MovedLength(secs: seq<Section>, t: seq<Section>, base: nat)
    requires WellFormed(secs) && MovedUpTo(secs, t, base, |secs|)
    ensures |t| == |secs|
  {}

  method RelocateSection(ghost secs: seq<Section>, shdr: array<Section>, buf: array<byte>, base: ulong, k: nat,
                         ghost raw: seq<byte>)
    returns (r: Outcome<()>)
    requires Linkable(secs) && MovedUpTo(secs, shdr[..], base, |secs|) && buf.Length == BufSize(secs)
    requires k < |secs| && Acts(secs, k) && Relocated(secs, base, raw, Sites(secs, k), buf[..])
    modifies buf
    ensures r.Ok? <==> forall j :: 0 <= j < |secs[k].rels| ==> Applies(secs, k, j)
    ensures r.Ok? ==> Relocated(secs, base, raw, SitesTo(secs, k, |secs[k].rels|), buf[..])
  {
    hide MovedUpTo, Sites, SitesTo, Relocated, Applies, RelFits, WellFormed, PatchOf, Apply, Acts;
    SitesNext(secs, k, 0);
    MovedAddr(secs, shdr[..], base, k);
    var j := 0;
    while j < |shdr[k].rels|
      invariant 0 <= j <= |secs[k].rels| && forall x :: 0 <= x < j ==> Applies(secs, k, x)
      invariant Relocated(secs, base, raw, SitesTo(secs, k, j), buf[..])
    {
      ghost var b := buf[..];
      r := RelocateOne(secs, shdr, buf, base, k, j);
      if r.Die? {
        return Die;
      }
      SitesNext(secs, k, j);
      RelocatedNext(secs, base, raw, SitesTo(secs, k, j), b, Site(k, j), buf[..]);
      j := j + 1;
    }
    r := Ok(());
  }

  const ELF32_MAX: ulong := 0xffff_ffff

  /** Section i is loaded code that contains the entry point. */
  predicate HoldsEntry(s: Section, entry: nat) {
    s.alloc && s.exec && s.addr <= entry < s.addr + s.size
  }

  /** The first section that holds the entry point, or the number of sections. */
  function EntrySection(secs: seq<Section>, entry: nat, i: nat): (r: nat)
    requires i <= |secs|
    ensures i <= r <= |secs| && (r < |secs| ==> HoldsEntry(secs[r], entry))
    ensures forall x :: i <= x < r ==> !HoldsEntry(secs[x], entry)
    decreases |secs| - i
  {
    if i == |secs| || HoldsEntry(secs[i], entry) then i else EntrySection(secs, entry, i + 1)
  }

  /** The entry point after loading: it keeps its offset in its section. */
  function MovedEntry(secs: seq<Section>, entry: nat, base: nat): int
    requires WellFormed(secs)
  {
    var e := EntrySection(secs, entry, 0);
    if e < |secs| then entry - secs[e].addr + AddrOf(secs, base, e) else entry
  }

  /** The moved entry point finds, in the copied buffer, the byte the old one found in its section. */
  lemma EntryKeepsItsByte(secs: seq<Section>, raw: seq<byte>, base: nat, entry: nat)
    requires WellFormed(secs) && |raw| == BufSize(secs) && EntrySection(secs, entry, 0) < |secs|
    requires !secs[EntrySection(secs, entry, 0)].kind.NOBITS?
    ensures var s, o := secs[EntrySection(secs, entry, 0)], MovedEntry(secs, entry, base) - base;
      0 <= o < BufSize(secs) && Copied(secs, raw, |secs|)[o] == s.data[entry - s.addr]
  {
    hide Offset, BufSize, Copied, WellFormed;
    var e := EntrySection(secs, entry, 0);
    CopiedByte(secs, raw, e, entry - secs[e].addr);
  }

  method FindEntry(shdr: array<Section>, entry: nat) returns (e: nat)
    ensures e == EntrySection(shdr[..], entry, 0)
  {
    e := 0;
    while e < shdr.Length && !HoldsEntry(shdr[e], entry)
      invariant 0 <= e <= shdr.Length && EntrySection(shdr[..], entry, 0) == EntrySection(shdr[..], entry, e)
    {
      e := e + 1;
    }
  }

  datatype Loaded = Loaded(buf: array<byte>, base: ulong, entry: int)

  ghost predicate SitesAreLinked(secs: seq<Section>, raw: seq<byte>, base: nat, buf: seq<byte>)
    requires Linkable(secs)
  {
    && SitesOk(secs, Sites(secs, |secs|)) && |raw| == BufSize(secs)
    && buf == Image(secs, raw, base, Sites(secs, |secs|))
  }

  lemma RelocatedIsImage(secs: seq<Section>, base: nat, raw: seq<byte>, buf: seq<byte>)
    requires Linkable(secs) && |raw| == BufSize(secs)
    requires Relocated(secs, base, Copied(secs, raw, |secs|), Sites(secs, |secs|), buf)
    ensures SitesAreLinked(secs, raw, base, buf)
  {}

  /** q is the request elf_rel_load makes of add_buffer for a 32-bit object. */
  ghost predicate Asks(secs: seq<Section>, min: ulong, max: ulong, end: int, q: Request) {
    && WellFormed(secs) && RelSize(secs) + BufAlign(secs) <= ULONG_MAX
    && q == Request(RelSize(secs), BufAlign(secs), min, if max > ELF32_MAX then ELF32_MAX else max, end)
  }

  /** The base and the buffer fit the layout. */
  ghost predicate Suits(secs: seq<Section>, base: ulong, bufsz: nat) {
    && WellFormed(secs) && bufsz == BufSize(secs)
    && base % BufAlign(secs) == 0 && base + RelSize(secs) + BufAlign(secs) <= ULONG_MAX
  }

  ghost predicate LoadedFrom(secs: seq<Section>, entry: nat, t: seq<Section>, raw: seq<byte>, base: nat,
                             buf: seq<byte>, newEntry: int) {
    Linked(secs, t, raw, base, buf) && newEntry == MovedEntry(secs, entry, base)
  }

  /** The object has been laid out and linked at base: the table has its addresses, the buffer its image, and the
      entry point its offset in its section. */
  ghost predicate Linked(secs: seq<Section>, t: seq<Section>, raw: seq<byte>, base: nat, buf: seq<byte>)
  {
    && Linkable(secs) && MovedUpTo(secs, t, base, |secs|)
    && AllApply(secs, |secs|) && SitesAreLinked(secs, raw, base, buf)
  }

  /** elf_rel_load from the chosen address on. */
  method Link(shdr: array<Section>, buf: array<byte>, base: ulong, entry: ulong) returns (r: Outcome<int>)
    requires Linkable(shdr[..]) && buf.Length == BufSize(shdr[..])
    requires base % BufAlign(shdr[..]) == 0 && base + RelSize(shdr[..]) + BufAlign(shdr[..]) <= ULONG_MAX
    modifies shdr, buf
    ensures r.Ok? ==> Linked(old(shdr[..]), shdr[..], old(buf[..]), base, buf[..])
    ensures r.Ok? ==> r.value == MovedEntry(old(shdr[..]), entry, base)
    ensures r.Ok? <==> AllApply(old(shdr[..]), shdr.Length)
  {
    hide WellFormed, MovedUpTo, Image, Copied, Sites, Relocated, AllApply, BufAlign, RelSize, BufSize;
    ghost var secs, raw := shdr[..], buf[..];
    var e := FindEntry(shdr, entry);
    var oldAddr := if e < shdr.Length then shdr[e].addr else 0;
    var dataEnd, bssEnd := Place(shdr, buf, base);
    var newEntry: int := entry;
    if e < shdr.Length {
      MovedAddr(secs, shdr[..], base, e);
      newEntry := entry - oldAddr + shdr[e].addr;
    }
    var linked := Relocate(secs, shdr, buf, base);
    if linked.Die? {
      return Die;
    }
    RelocatedIsImage(secs, base, raw, buf[..]);
    r := Ok(newEntry);
  }

  /** elf_rel_load up to add_buffer; `secs` names the section table, and `q` the request made. */
  method Reserve(info: KexecInfo, shdr: array<Section>, ghost secs: seq<Section>, min: ulong, max: ulong, end: int,
                 ghost q: Request)
    returns (base: Outcome<ulong>, buf: array<byte>)
    requires info.Valid() && secs == shdr[..] && Asks(secs, min, max, end, q) && Sane(info.m, q)
    modifies info`segment
    ensures info.Valid() && fresh(buf) && buf.Length <= ULONG_MAX
    ensures base.Ok? <==> end != 0 && Disjoint(old(info.segment)) && Placeable(info.m, old(info.segment), q)
    ensures base.Ok? ==> BufferAdded(info.m, old(info.segment), info.segment, buf, buf.Length, q, base.value)
    ensures base.Ok? ==> Suits(secs, base.value, buf.Length)
    ensures base.Ok? ==> WellFormed(secs) && min <= base.value && base.value + RelSize(secs) <= max
    ensures base.Ok? ==> WellFormed(secs) && base.value + RelSize(secs) <= 0xffff_ffff
  {
    hide WellFormed, BufferAdded, AllPlaced, Sane, Machine.Ok, BufAlign, RelSize, Disjoint, Placeable;
    var limit := if max > ELF32_MAX then ELF32_MAX else max;
    var bufAlign, bufsz, bssPad, bsssz := Measure(shdr);
    buf := new byte[bufsz];
    base := info.AddBuffer(buf, bufsz, Request(bufsz + bssPad + bsssz, bufAlign, min, limit, end));
    if base.Ok? {
      AddedBaseAligns(info.m, old(info.segment), info.segment, buf, bufsz, q, base.value);
      AddedInBounds(info.m, old(info.segment), info.segment, buf, bufsz, q, base.value);
    }
  }

  /** elf_rel_load: measures, allocates, places and relocates; `raw` is what malloc left in the buffer. */
  method ElfRelLoad(info: KexecInfo, shdr: array<Section>, ghost secs: seq<Section>, entry: ulong,
                    min: ulong, max: ulong, end: int, ghost q: Request)
    returns (r: Outcome<Loaded>, ghost raw: seq<byte>)
    requires info.Valid() && secs == shdr[..] && Linkable(secs) && Asks(secs, min, max, end, q) && Sane(info.m, q)
    modifies shdr, info`segment
    ensures info.Valid()
    ensures r.Ok? <==>
      end != 0 && Disjoint(old(info.segment)) && Placeable(info.m, old(info.segment), q) && AllApply(secs, |secs|)
    ensures r.Ok? ==> LoadedFrom(secs, entry, shdr[..], raw, r.value.base, r.value.buf[..], r.value.entry)
    ensures r.Ok? ==> r.value.buf.Length <= ULONG_MAX
    ensures r.Ok? ==> WellFormed(secs) && min <= r.value.base && r.value.base + RelSize(secs) <= max
    ensures r.Ok? ==> WellFormed(secs) && r.value.base + RelSize(secs) <= 0xffff_ffff
    ensures r.Ok? ==>
      BufferAdded(info.m, old(info.segment), info.segment, r.value.buf, r.value.buf.Length, q, r.value.base)
  {
    hide WellFormed, BufferAdded, AllPlaced, Sane, Linked, MovedEntry, AllApply, Asks, Machine.Ok, BufAlign, RelSize,
         Disjoint, Placeable;
    var base, buf := Reserve(info, shdr, secs, min, max, end, q);
    raw := buf[..];
    if base.Die? {
      return Die, raw;
    }
    var newEntry := Link(shdr, buf, base.value, entry);
    if newEntry.Die? {
      return Die, raw;
    }
    r := Ok(Loaded(buf, base.value, newEntry.value));
  }

  lemma AddedInBounds(m: Machine, t: seq<Segment>, t': seq<Segment>, buf: array<byte>, bufsz: ulong, q: Request,
                      base: ulong)
    requires BufferAdded(m, t, t', buf, bufsz, q, base)
    ensures q.min <= base && base + q.size <= q.max
  {
    hide SegmentAdded, Ordered, Disjoint;
  }

  /** add_buffer's base is a multiple of the requested power-of-two alignment, with room above the block. */
  lemma AddedBaseAligns(m: Machine, t: seq<Segment>, t': seq<Segment>, buf: array<byte>, bufsz: ulong, q: Request,
                        base: ulong)
    requires m.Ok() && IsPow2(q.align) && BufferAdded(m, t, t', buf, bufsz, q, base)
    ensures base % q.align == 0 && base + q.size + q.align <= ULONG_MAX
  {
    if q.align < m.pagesize {
      Pow2Divides(q.align, m.pagesize);
      DivisorChain(base, m.pagesize, q.align);
    }
  }

  /** No two relocations patch bytes of the same word of a section. */
  ghost predicate SitesApart(secs: seq<Section>) {
    forall k, j, k', j' ::
      (0 <= k < |secs| && Acts(secs, k) && 0 <= j < |secs[k].rels|
       && 0 <= k' < |secs| && Acts(secs, k') && 0 <= j' < |secs[k'].rels|
       && (k != k' || j != j') && secs[k].info == secs[k'].info) ==>
        || secs[k].rels[j].offset + 4 <= secs[k'].rels[j'].offset
        || secs[k'].rels[j'].offset + 4 <= secs[k].rels[j].offset
  }

  /** Sites are listed in table order, each once. */
  lemma {:induction false} SitesAscend(secs: seq<Section>, n: nat)
    requires n <= |secs|
    ensures forall x :: 0 <= x < |Sites(secs, n)| ==>
              Sites(secs, n)[x].k < n && Acts(secs, Sites(secs, n)[x].k)
              && Sites(secs, n)[x].j < |secs[Sites(secs, n)[x].k].rels|
    ensures forall x, y :: 0 <= x < y < |Sites(secs, n)| ==>
              Sites(secs, n)[x].k < Sites(secs, n)[y].k
              || (Sites(secs, n)[x].k == Sites(secs, n)[y].k && Sites(secs, n)[x].j < Sites(secs, n)[y].j)
  {
    hide Acts;
    if n > 0 {
      SitesAscend(secs, n - 1);
    }
  }

  lemma {:induction false} SiteIsListed(secs: seq<Section>, n: nat, k: nat, j: nat)
    requires k < n <= |secs| && Acts(secs, k) && j < |secs[k].rels|
    ensures Site(k, j) in Sites(secs, n)
  {
    hide Acts;
    if k == n - 1 {
      var mine := seq(|secs[k].rels|, (x: nat) => Site(k, x));
      assert mine[j] == Site(k, j);
    } else {
      SiteIsListed(secs, n - 1, k, j);
    }
  }

  lemma SitesSeparate(secs: seq<Section>, base: nat)
    requires WellFormed(secs) && SitesApart(secs) && SitesOk(secs, Sites(secs, |secs|))
    ensures Separate(Patches(secs, base, Sites(secs, |secs|)))
  {
    var ss := Sites(secs, |secs|);
    SitesAscend(secs, |secs|);
    hide Patches, PatchOf, WellFormed, Sites, SitesApart;
    forall x, y | 0 <= x < y < |ss|
      ensures Patches(secs, base, ss)[x].off + 4 <= Patches(secs, base, ss)[y].off
           || Patches(secs, base, ss)[y].off + 4 <= Patches(secs, base, ss)[x].off
    {
      assert SiteOk(secs, ss[x]) && SiteOk(secs, ss[y]);
      TwoSites(secs, base, ss[x], ss[y]);
    }
  }

  lemma TwoSites(secs: seq<Section>, base: nat, s: Site, t: Site)
    requires SiteOk(secs, s) && SiteOk(secs, t) && s != t && SitesApart(secs)
    ensures PatchOf(secs, base, s.k, s.j).off + 4 <= PatchOf(secs, base, t.k, t.j).off
         || PatchOf(secs, base, t.k, t.j).off + 4 <= PatchOf(secs, base, s.k, s.j).off
  {
    hide Offset, Value, Applies;
    var a, b := secs[s.k].info, secs[t.k].info;
    if a < b {
      SectionsApart(secs, a, b);
    } else if b < a {
      SectionsApart(secs, b, a);
    }
    hide WellFormed;
  }

  /** Each site adds its value to the word the copy holds there. */
  lemma {:induction false} SiteWord(secs: seq<Section>, raw: seq<byte>, base: nat, ss: seq<Site>, i: nat)
    requires SitesOk(secs, ss) && WellFormed(secs) && |raw| == BufSize(secs) && i < |ss|
    requires Separate(Patches(secs, base, ss))
    ensures SiteOk(secs, ss[i])
    ensures var off := PatchOf(secs, base, ss[i].k, ss[i].j).off;
            && off + 4 <= BufSize(secs)
            && Word(Image(secs, raw, base, ss), off)
               == Word32(Word(Copied(secs, raw, |secs|), off) + PatchValue(secs, base, ss[i].k, ss[i].j))
  {
    hide PatchOf, Word, Word32, Copied, ApplyAll, RelFits, Applies, Patches, WellFormed, Within, Separate, Acts,
         PatchValue;
    PatchesFit(secs, base, ss);
    assert SiteOk(secs, ss[i]);
    var off := PatchOf(secs, base, ss[i].k, ss[i].j).off;
    EachAdds(Copied(secs, raw, |secs|), Patches(secs, base, ss), i);
    PatchAdds(secs, base, ss[i].k, ss[i].j);
    WordShift(PatchValue(secs, base, ss[i].k, ss[i].j), Word(Copied(secs, raw, |secs|), off));
    PatchFits(secs, base, ss, i);
  }

  lemma PatchFits(secs: seq<Section>, base: nat, ss: seq<Site>, i: nat)
    requires SitesOk(secs, ss) && WellFormed(secs) && i < |ss| && SiteOk(secs, ss[i])
    ensures PatchOf(secs, base, ss[i].k, ss[i].j).off + 4 <= BufSize(secs)
  {
    hide PatchOf, Patches, WellFormed, BufSize;
    PatchesFit(secs, base, ss);
    assert Patches(secs, base, ss)[i].off + 4 <= BufSize(secs);
  }

  lemma PatchAdds(secs: seq<Section>, base: nat, k: nat, j: nat)
    requires SiteOk(secs, Site(k, j))
    ensures PatchOf(secs, base, k, j).add == Word32(PatchValue(secs, base, k, j))
    ensures PatchOf(secs, base, k, j).off == Offset(secs, secs[k].info) + secs[k].rels[j].offset
  {
    hide Offset, Value, RelFits, Applies, Word32;
  }

  lemma SlicePart(c: seq<byte>, at: nat, n: nat, o: nat)
    requires at + n <= |c| && o + 4 <= n
    ensures c[at + o..at + o + 4] == c[at..at + n][o..o + 4]
  {
    var x, y := c[at + o..at + o + 4], c[at..at + n][o..o + 4];
    assert |x| == |y| && forall i :: 0 <= i < 4 ==> x[i] == c[at + o + i] == y[i];
  }

  lemma {:induction false} CopiedWord(secs: seq<Section>, raw: seq<byte>, i: nat, o: nat)
    requires WellFormed(secs) && |raw| == BufSize(secs) && i < |secs| && secs[i].Loads(false) && o + 4 <= secs[i].size
    ensures o + 4 <= |secs[i].data| && Offset(secs, i) + o + 4 <= BufSize(secs)
    ensures Word(Copied(secs, raw, |secs|), Offset(secs, i) + o) == FromLittle(secs[i].data[o..o + 4])
  {
    hide Offset, BufSize, Copied, FromLittle;
    CopiedIntact(secs, raw, |secs|, i);
    hide WellFormed;
    SlicePart(Copied(secs, raw, |secs|), Offset(secs, i), secs[i].size, o);
  }

  /** What a relocation is in the linked buffer, in terms of the object and the new section table alone: the word of
      the section's file data there, plus the symbol's value and the new address of its section, plus the addend of a
      RELA entry, minus the new address of the place if it is relative, modulo 2^32. */
  lemma {:induction false} LinkedWord(secs: seq<Section>, t: seq<Section>, raw: seq<byte>, base: nat, buf: seq<byte>,
                                      k: nat, j: nat)
    requires Linked(secs, t, raw, base, buf) && SitesApart(secs)
    requires k < |secs| && Acts(secs, k) && j < |secs[k].rels|
    ensures var rel, target := secs[k].rels[j], secs[k].info;
            && rel.sym < |secs[secs[k].link].syms| && |t| == |secs|
            && var sym := secs[secs[k].link].syms[rel.sym];
               var at := t[target].addr - base + rel.offset;
            && (sym.shndx == 0xfff1 || 0 < sym.shndx < |secs|) && sym.shndx != 0xfff2 && rel.kind in {1, 2}
            && 0 <= at && at + 4 <= |buf| && rel.offset + 4 <= |secs[target].data|
            && FromLittle(buf[at..at + 4])
               == (FromLittle(secs[target].data[rel.offset..rel.offset + 4])
                   + sym.value + (if sym.shndx == 0xfff1 then 0 else t[sym.shndx].addr)
                   + (if secs[k].kind.RELA? then rel.addend else 0)
                   - (if rel.kind == 2 then t[target].addr + rel.offset else 0)) % 0x1_0000_0000
  {
    hide WellFormed, Offset, FromLittle, MovedUpTo, Copied, Image, Sites, PatchOf, PatchValue, Patches, SitesApart,
         Separate;
    var ss, target, rel := Sites(secs, |secs|), secs[k].info, secs[k].rels[j];
    assert RelFits(secs, k, j) && Applies(secs, k, j);
    SiteIsListed(secs, |secs|, k, j);
    var i :| 0 <= i < |ss| && ss[i] == Site(k, j);
    SitesSeparate(secs, base);
    SiteWord(secs, raw, base, ss, i);
    PatchAdds(secs, base, k, j);
    CopiedWord(secs, raw, target, rel.offset);
    MovedAddr(secs, t, base, target);
    var sym := SymOf(secs, k, j);
    if sym.shndx != 0xfff1 { MovedAddr(secs, t, base, sym.shndx); }
    PatchValueIs(secs, t, base, k, j);
    hide AllApply, Linkable, SitesAreLinked;
  }

  lemma PatchValueIs(secs: seq<Section>, t: seq<Section>, base: nat, k: nat, j: nat)
    requires SiteOk(secs, Site(k, j)) && |t| == |secs| && t[secs[k].info].addr == AddrOf(secs, base, secs[k].info)
    requires var sym := SymOf(secs, k, j); sym.shndx != 0xfff1 ==> t[sym.shndx].addr == AddrOf(secs, base, sym.shndx)
    ensures var rel, sym := secs[k].rels[j], SymOf(secs, k, j);
            PatchValue(secs, base, k, j)
            == sym.value + (if sym.shndx == 0xfff1 then 0 else t[sym.shndx].addr)
               + (if secs[k].kind.RELA? then rel.addend else 0)
               - (if rel.kind == 2 then t[secs[k].info].addr + rel.offset else 0)
  {
    hide Offset, WellFormed;
  }

  /** A byte of a section that no relocation covers is that of the file. */
  lemma {:induction false} LinkedByte(secs: seq<Section>, t: seq<Section>, raw: seq<byte>, base: nat, buf: seq<byte>,
                                      i: nat, x: nat)
    requires Linked(secs, t, raw, base, buf) && i < |secs| && secs[i].Loads(false) && x < secs[i].size
    requires forall k, j :: 0 <= k < |secs| && Acts(secs, k) && 0 <= j < |secs[k].rels| && secs[k].info == i ==>
               !(secs[k].rels[j].offset <= x < secs[k].rels[j].offset + 4)
    ensures |t| == |secs| && x < |secs[i].data| && 0 <= t[i].addr - base + x < |buf|
    ensures buf[t[i].addr - base + x] == secs[i].data[x]
  {
    hide WellFormed, Offset, MovedUpTo, Copied, Sites, PatchOf, Patches, Applies, RelFits, ApplyAll;
    var ss := Sites(secs, |secs|);
    MovedAddr(secs, t, base, i);
    CopiedByte(secs, raw, i, x);
    PatchesFit(secs, base, ss);
    SitesAscend(secs, |secs|);
    var o := Offset(secs, i) + x;
    forall y | 0 <= y < |ss| ensures !(Patches(secs, base, ss)[y].off <= o < Patches(secs, base, ss)[y].off + 4) {
      assert SiteOk(secs, ss[y]);
      SiteMisses(secs, base, ss[y], i, x);
    }
    Untouched(Copied(secs, raw, |secs|), Patches(secs, base, ss), o);
  }

  lemma SiteMisses(secs: seq<Section>, base: nat, s: Site, i: nat, x: nat)
    requires SiteOk(secs, s) && i < |secs| && secs[i].Loads(false) && x < secs[i].size
    requires secs[s.k].info == i ==> !(secs[s.k].rels[s.j].offset <= x < secs[s.k].rels[s.j].offset + 4)
    ensures var off := PatchOf(secs, base, s.k, s.j).off; !(off <= Offset(secs, i) + x < off + 4)
  {
    PatchAdds(secs, base, s.k, s.j);
    hide Offset, PatchOf;
    var a := secs[s.k].info;
    if a < i {
      SectionsApart(secs, a, i);
    } else if i < a {
      SectionsApart(secs, i, a);
    }
    hide WellFormed;
  }

  /** elf_rel_load dies of a relocation exactly if its symbol is undefined (0), common (0xfff2) or of no section, or if
      its type is neither 1 nor 2. */
  lemma AppliesExactly(secs: seq<Section>, k: nat, j: nat)
    requires k < |secs| && Acts(secs, k) && j < |secs[k].rels| && RelFits(secs, k, j)
    ensures var rel := secs[k].rels[j];
            var shndx := secs[secs[k].link].syms[rel.sym].shndx;
            Applies(secs, k, j) <==>
              shndx != 0 && shndx != 0xfff2 && (shndx == 0xfff1 || shndx <= |secs|) && (rel.kind == 1 || rel.kind == 2)
  {}

  /** The entry point moves as the first loaded code section that holds it does, and stays if there is none. */
  lemma EntryMoves(secs: seq<Section>, entry: nat, base: nat, i: nat)
    requires WellFormed(secs)
    requires i <= |secs|
    requires forall x :: 0 <= x < i && secs[x].alloc && secs[x].exec ==>
               entry < secs[x].addr || secs[x].addr + secs[x].size <= entry
    requires i < |secs| ==> secs[i].alloc && secs[i].exec && secs[i].addr <= entry < secs[i].addr + secs[i].size
    ensures MovedEntry(secs, entry, base) - entry == if i < |secs| then base + Offset(secs, i) - secs[i].addr else 0
  {
    hide Offset, WellFormed;
  }

  /** The section table after linking: only addresses of loaded sections have changed; those are aligned and inside the
      block, data before bss, and no two share an address. */
  lemma {:induction false} LinkedTable(secs: seq<Section>, t: seq<Section>, raw: seq<byte>, base: nat, buf: seq<byte>,
                                       i: nat, j: nat)
    requires Linked(secs, t, raw, base, buf) && base % BufAlign(secs) == 0 && i < |secs| && j < |secs|
    ensures |t| == |secs| && t[i] == secs[i].(addr := t[i].addr) && (!secs[i].alloc ==> t[i] == secs[i])
    ensures secs[i].alloc ==>
      && 0 < secs[i].align && t[i].addr % secs[i].align == 0
      && base <= t[i].addr && t[i].addr + secs[i].size <= base + RelSize(secs)
      && if secs[i].kind.NOBITS? then base + |buf| <= t[i].addr else t[i].addr + secs[i].size <= base + |buf|
    ensures i < j && secs[i].alloc && secs[j].alloc ==>
      t[i].addr + secs[i].size <= t[j].addr || t[j].addr + secs[j].size <= t[i].addr
  {
    hide MovedUpTo, Offset, AllApply, Sites, BufSize, RelSize, BufAlign;
    MovedAddr(secs, t, base, i);
    MovedAddr(secs, t, base, j);
    if secs[i].alloc { OffsetInBounds(secs, base, i); }
    if i < j && secs[i].alloc && secs[j].alloc { SectionsApart(secs, i, j); }
    hide Image;
  }
}
