/** Where elf_rel_load puts the sections of a relocatable object: the layout both of its passes compute. */
module ElfLayout {
  import opened Bits

  datatype Kind = PROGBITS | NOBITS | SYMTAB | REL | RELA | OTHER

  /** A symbol table entry and a relocation entry, as elf_sym, elf_rel and elf_rela decode them. */
  datatype Sym = Sym(value: nat, shndx: nat)
  datatype Rel = Rel(offset: nat, sym: nat, kind: nat, addend: nat)

  datatype Section = Section(alloc: bool, exec: bool, kind: Kind, addr: ulong, size: ulong, align: ulong,
                             data: seq<byte>, link: nat, info: nat, syms: seq<Sym>, rels: seq<Rel>)
  {
    /** Loaded with bytes from the file (bss false) or as zeroes behind them (bss true). */
    predicate Loads(bss: bool) { alloc && kind.NOBITS? == bss }
  }

  /** Alignments are powers of two, and loaded bytes are there. */
  ghost predicate WellFormed(secs: seq<Section>) {
    forall i :: 0 <= i < |secs| && secs[i].alloc ==>
      IsPow2(secs[i].align) && (!secs[i].kind.NOBITS? ==> |secs[i].data| == secs[i].size)
  }

  /** x rounded up to a multiple of a. */
  function Round(x: nat, a: nat): (r: nat)
    requires a > 0
  {
    (x + a - 1) / a * a
  }

  lemma {:induction false} RoundIsLeast(x: nat, a: nat)
    requires a > 0
    ensures x <= Round(x, a) < x + a && Round(x, a) % a == 0
  {
    var q := (x + a - 1) / a;
    assert x + a - 1 == a * q + (x + a - 1) % a;
    ModIs(Round(x, a), a, q, 0);
  }

  lemma RoundUnique(x: nat, a: nat, r: int)
    requires a > 0 && x <= r < x + a && r % a == 0
    ensures r == Round(x, a)
  {
    RoundIsLeast(x, a);
    Multiples(r, Round(x, a), a);
    Multiples(Round(x, a), r, a);
  }

  lemma AlignUpIsRound(x: ulong, a: ulong)
    requires IsPow2(a) && x + a <= ULONG_SIZE
    ensures AlignUp(x, a) == Round(x, a)
  {
    RoundUnique(x, a, AlignUp(x, a));
  }

  lemma RoundShifts(base: nat, x: nat, a: nat)
    requires a > 0 && base % a == 0
    ensures Round(base + x, a) == base + Round(x, a)
  {
    RoundIsLeast(x, a);
    Multiples(base, Round(x, a), a);
    RoundUnique(base + x, a, base + Round(x, a));
  }

  /** The footprint of the first n sections of one class. */
  function End(secs: seq<Section>, n: nat, bss: bool): nat
    requires WellFormed(secs) && n <= |secs|
  {
    if n == 0 then 0
    else if secs[n - 1].Loads(bss) then Round(End(secs, n - 1, bss), secs[n - 1].align) + secs[n - 1].size
    else End(secs, n - 1, bss)
  }

  function MaxAlign(secs: seq<Section>, n: nat, bss: bool): (a: nat)
    requires WellFormed(secs) && n <= |secs|
    ensures IsPow2(a)
  {
    if n == 0 then 1
    else
      var a := MaxAlign(secs, n - 1, bss);
      if secs[n - 1].Loads(bss) && a < secs[n - 1].align then secs[n - 1].align else a
  }

  lemma {:induction false} EndGrows(secs: seq<Section>, i: nat, n: nat, bss: bool)
    requires WellFormed(secs) && i <= n <= |secs|
    ensures End(secs, i, bss) <= End(secs, n, bss)
    ensures i < n && secs[i].Loads(bss) ==>
              Round(End(secs, i, bss), secs[i].align) + secs[i].size <= End(secs, n, bss)
  {
    hide Round;
    if i < n {
      EndGrows(secs, i, n - 1, bss);
      if secs[n - 1].Loads(bss) {
        RoundIsLeast(End(secs, n - 1, bss), secs[n - 1].align);
      }
    }
  }

  lemma {:induction false} AlignDivides(secs: seq<Section>, i: nat, n: nat, bss: bool)
    requires WellFormed(secs) && i < n <= |secs| && secs[i].Loads(bss)
    ensures secs[i].align <= MaxAlign(secs, n, bss) && MaxAlign(secs, n, bss) % secs[i].align == 0
  {
    if i < n - 1 {
      AlignDivides(secs, i, n - 1, bss);
    }
    Pow2Divides(secs[i].align, MaxAlign(secs, n, bss));
  }

  function BufAlign(secs: seq<Section>): (a: nat)
    requires WellFormed(secs)
    ensures IsPow2(a)
  {
    var d, b := MaxAlign(secs, |secs|, false), MaxAlign(secs, |secs|, true);
    if d < b then b else d
  }

  lemma BaseAligns(secs: seq<Section>, base: nat, i: nat)
    requires WellFormed(secs) && base % BufAlign(secs) == 0 && i < |secs| && secs[i].alloc
    ensures base % secs[i].align == 0 && base % MaxAlign(secs, |secs|, true) == 0
    ensures secs[i].align <= BufAlign(secs)
  {
    var bss := secs[i].kind.NOBITS?;
    AlignDivides(secs, i, |secs|, bss);
    Pow2Divides(MaxAlign(secs, |secs|, bss), BufAlign(secs));
    Pow2Divides(MaxAlign(secs, |secs|, true), BufAlign(secs));
    DivisorChain(base, BufAlign(secs), MaxAlign(secs, |secs|, true));
    DivisorChain(base, BufAlign(secs), MaxAlign(secs, |secs|, bss));
    DivisorChain(base, MaxAlign(secs, |secs|, bss), secs[i].align);
  }

  /** bufsz, and the start of the bss behind it: bufsz + bss_pad. */
  function BufSize(secs: seq<Section>): nat
    requires WellFormed(secs)
  {
    End(secs, |secs|, false)
  }

  function BssStart(secs: seq<Section>): nat
    requires WellFormed(secs)
  {
    Round(BufSize(secs), MaxAlign(secs, |secs|, true))
  }

  function RelSize(secs: seq<Section>): nat
    requires WellFormed(secs)
  {
    BssStart(secs) + End(secs, |secs|, true)
  }

  /** The place of section i relative to the load address. */
  function Offset(secs: seq<Section>, i: nat): nat
    requires WellFormed(secs) && i < |secs| && secs[i].alloc
  {
    if secs[i].kind.NOBITS? then BssStart(secs) + Round(End(secs, i, true), secs[i].align)
    else Round(End(secs, i, false), secs[i].align)
  }

  /** Every loaded section is aligned once the base is, and lies in its part of the image. */
  lemma OffsetInBounds(secs: seq<Section>, base: nat, i: nat)
    requires WellFormed(secs) && base % BufAlign(secs) == 0 && i < |secs| && secs[i].alloc
    ensures (base + Offset(secs, i)) % secs[i].align == 0
    ensures if secs[i].kind.NOBITS?
            then BufSize(secs) <= Offset(secs, i) && Offset(secs, i) + secs[i].size <= RelSize(secs)
            else Offset(secs, i) + secs[i].size <= BufSize(secs) <= RelSize(secs)
  {
    var bss := secs[i].kind.NOBITS?;
    EndGrows(secs, i, |secs|, bss);
    BaseAligns(secs, base, i);
    RoundIsLeast(End(secs, i, bss), secs[i].align);
    RoundIsLeast(BufSize(secs), MaxAlign(secs, |secs|, true));
    Multiples(base, Round(End(secs, i, bss), secs[i].align), secs[i].align);
    if bss {
      AlignDivides(secs, i, |secs|, true);
      DivisorChain(BssStart(secs), MaxAlign(secs, |secs|, true), secs[i].align);
      Multiples(BssStart(secs), base + Round(End(secs, i, true), secs[i].align), secs[i].align);
    }
  }

  /** Two loaded sections never share an address. */
  lemma SectionsApart(secs: seq<Section>, i: nat, j: nat)
    requires WellFormed(secs) && i < j < |secs| && secs[i].alloc && secs[j].alloc
    ensures Offset(secs, i) + secs[i].size <= Offset(secs, j) || Offset(secs, j) + secs[j].size <= Offset(secs, i)
  {
    if secs[i].kind.NOBITS? == secs[j].kind.NOBITS? {
      EndGrows(secs, i, j, secs[i].kind.NOBITS?);
      RoundIsLeast(End(secs, j, secs[i].kind.NOBITS?), secs[j].align);
    } else {
      assert 0 % BufAlign(secs) == 0;
      OffsetInBounds(secs, 0, i);
      OffsetInBounds(secs, 0, j);
    }
  }

  lemma {:induction false} EndSkips(secs: seq<Section>, i: nat, n: nat, bss: bool)
    requires WellFormed(secs) && i <= n <= |secs| && forall k :: i <= k < n ==> !secs[k].Loads(bss)
    ensures End(secs, n, bss) == End(secs, i, bss)
  {
    if i < n {
      EndSkips(secs, i, n - 1, bss);
    }
  }

  /** The layout leaves no room it need not: the first section of its kind lies at the start, the next one less than
      its alignment behind the one before, and the last one ends the part. */
  lemma {:induction false} LayoutIsTight(secs: seq<Section>, i: nat)
    requires WellFormed(secs) && i < |secs| && secs[i].alloc
    ensures var bss := secs[i].kind.NOBITS?;
            && ((forall k :: 0 <= k < i ==> !(secs[k].alloc && secs[k].kind.NOBITS? == bss)) ==>
                  Offset(secs, i) == if bss then BssStart(secs) else 0)
            && ((forall k :: i < k < |secs| ==> !(secs[k].alloc && secs[k].kind.NOBITS? == bss)) ==>
                  Offset(secs, i) + secs[i].size == if bss then RelSize(secs) else BufSize(secs))
  {
    var bss := secs[i].kind.NOBITS?;
    if forall k :: 0 <= k < i ==> !(secs[k].alloc && secs[k].kind.NOBITS? == bss) {
      EndSkips(secs, 0, i, bss);
      RoundIsLeast(0, secs[i].align);
      RoundUnique(0, secs[i].align, 0) by { ModIs(0, secs[i].align, 0, 0); }
    }
    if forall k :: i < k < |secs| ==> !(secs[k].alloc && secs[k].kind.NOBITS? == bss) {
      EndSkips(secs, i + 1, |secs|, bss);
    }
    hide WellFormed, Round, MaxAlign;
  }

  lemma {:induction false} NextIsTight(secs: seq<Section>, i: nat, j: nat)
    requires WellFormed(secs) && i < j < |secs| && secs[i].alloc && secs[j].alloc
    requires secs[i].kind.NOBITS? == secs[j].kind.NOBITS?
    requires forall k :: i < k < j ==> !(secs[k].alloc && secs[k].kind.NOBITS? == secs[i].kind.NOBITS?)
    ensures Offset(secs, i) + secs[i].size <= Offset(secs, j) < Offset(secs, i) + secs[i].size + secs[j].align
  {
    var bss := secs[i].kind.NOBITS?;
    EndSkips(secs, i + 1, j, bss);
    RoundIsLeast(End(secs, j, bss), secs[j].align);
    hide WellFormed, Round, MaxAlign;
  }

  /** The bss part starts less than its greatest alignment behind the data part. */
  lemma BssIsTight(secs: seq<Section>)
    requires WellFormed(secs)
    ensures BufSize(secs) <= BssStart(secs) < BufSize(secs) + MaxAlign(secs, |secs|, true)
  {
    RoundIsLeast(BufSize(secs), MaxAlign(secs, |secs|, true));
  }

  /** The greatest alignment is that of some section of the kind, or 1. */
  lemma {:induction false} MaxAlignIsOne(secs: seq<Section>, n: nat, bss: bool)
    requires WellFormed(secs) && n <= |secs|
    ensures MaxAlign(secs, n, bss) == 1
         || exists i :: 0 <= i < n && secs[i].Loads(bss) && MaxAlign(secs, n, bss) == secs[i].align
  {
    if n > 0 {
      MaxAlignIsOne(secs, n - 1, bss);
    }
  }
}
