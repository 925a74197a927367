/** The DOL loader of arch/ppc/kexec-dol-ppc.c: sections become page-aligned segments, overlaps merge in place. */
module Dol {
  import opened Bits
  import opened Buffers

  const DOL_MAX_SECT := 18

  /** One section of the header, text sections first; size 0 means unused. */
  datatype Section = Section(offset: uint32, address: uint32, size: uint32) {
    function End(): int { address + size }
    predicate Has(a: int) { address <= a < End() }
  }

  /** sects_bitmap is the set of its bit positions; size 0 means no segment. */
  datatype DolSegment = DolSegment(bitmap: set<nat>, start: uint32, size: uint32) {
    function End(): int { start + size }
    predicate Has(a: int) { start <= a < End() }
    predicate Overlaps(t: DolSegment) { !(start >= t.End() || t.start >= End()) }
  }

  const NONE := DolSegment({}, 0, 0)

  ghost predicate Covered(segs: seq<DolSegment>, a: int) {
    exists k :: 0 <= k < |segs| && segs[k].Has(a)
  }

  ghost predicate SameMemory(s: seq<DolSegment>, t: seq<DolSegment>) {
    forall a :: Covered(s, a) <==> Covered(t, a)
  }

  /** t covers no address that s does not. */
  ghost predicate NoMore(s: seq<DolSegment>, t: seq<DolSegment>) {
    forall a :: Covered(t, a) ==> Covered(s, a)
  }

  ghost predicate Owned(segs: seq<DolSegment>, b: nat) {
    exists k :: 0 <= k < |segs| && b in segs[k].bitmap
  }

  ghost predicate SameSections(s: seq<DolSegment>, t: seq<DolSegment>) {
    forall b :: Owned(s, b) <==> Owned(t, b)
  }

  /** Page-aligned, below the top of memory, and all zero when not in use. */
  predicate Aligned(s: DolSegment) {
    && s.start % 0x1000 == 0 && s.size % 0x1000 == 0 && s.End() < 0x1_0000_0000
    && (s.size == 0 ==> s == NONE)
  }

  /** The segment contains every section whose bit it holds. */
  ghost predicate Holds(h: seq<Section>, s: DolSegment) {
    forall b :: b in s.bitmap ==> b < |h| && 0 < h[b].size && s.start <= h[b].address && h[b].End() <= s.End()
  }

  ghost predicate SegmentOk(h: seq<Section>, s: DolSegment) {
    Aligned(s) && Holds(h, s)
  }

  /** Every entry is page-aligned and no section belongs to two segments. */
  predicate Tidy(segs: seq<DolSegment>) {
    && (forall k :: 0 <= k < |segs| ==> Aligned(segs[k]))
    && forall k, l :: 0 <= k < l < |segs| ==> segs[k].bitmap !! segs[l].bitmap
  }

  ghost predicate AllHold(h: seq<Section>, segs: seq<DolSegment>) {
    forall k :: 0 <= k < |segs| ==> Holds(h, segs[k])
  }

  ghost predicate Sound(h: seq<Section>, segs: seq<DolSegment>) {
    Tidy(segs) && AllHold(h, segs)
  }

  /** Every address from a up to b is covered. */
  ghost predicate Unbroken(segs: seq<DolSegment>, a: int, b: int) {
    forall x :: a <= x < b ==> Covered(segs, x)
  }

  /** Inside one unbroken run of memory, segments end less than 2^31 apart: a 32-bit `long` holds the difference. */
  ghost predicate Near(segs: seq<DolSegment>) {
    forall k, l :: 0 <= k < |segs| && 0 <= l < |segs| && 0 < segs[k].size && 0 < segs[l].size ==>
      Unbroken(segs, segs[l].End(), segs[k].End()) ==> segs[k].End() - segs[l].End() < 0x8000_0000
  }

  /** No two of the first n segments overlap. */
  predicate ApartUpTo(segs: seq<DolSegment>, n: nat)
    requires n <= |segs|
  {
    forall k, l :: 0 <= k < l < n && segs[k].size > 0 && segs[l].size > 0 ==> !segs[k].Overlaps(segs[l])
  }

  /** A 32-bit value stored in a 32-bit signed `long`. */
  function Long32(d: int): int {
    var u := Word32(d);
    if u < 0x8000_0000 then u else u - 0x1_0000_0000
  }

  /** The merge: keep is extended to the end of gone and takes over its sections. */
  function Merged(keep: DolSegment, gone: DolSegment): DolSegment {
    var extra := Long32(gone.End() - keep.End());
    var size := if extra > 0 then Word32(keep.size + extra) else keep.size;
    DolSegment(keep.bitmap + gone.bitmap, keep.start, size)
  }

  /** A 32-bit `long` holds the difference of the ends. */
  predicate EndsFit(keep: DolSegment, gone: DolSegment) {
    -0x8000_0000 <= gone.End() - keep.End() < 0x8000_0000
  }

  /** Merging two overlapping segments keeps exactly their memory if and only if the difference of the ends fits. */
  lemma MergeIsUnion(keep: DolSegment, gone: DolSegment)
    requires keep.Overlaps(gone) && keep.start <= gone.start && 0 < gone.size
    requires keep.End() < 0x1_0000_0000 && gone.End() < 0x1_0000_0000
    ensures (forall a :: Merged(keep, gone).Has(a) <==> keep.Has(a) || gone.Has(a)) <==> EndsFit(keep, gone)
  {
    var m, d := Merged(keep, gone), gone.End() - keep.End();
    if d >= 0x8000_0000 {
      assert gone.Has(gone.End() - 1) && !m.Has(gone.End() - 1);
    } else if d < -0x8000_0000 {
      assert keep.size + Long32(d) == gone.End() - keep.start + 0x1_0000_0000;
      assert keep.Has(keep.End() - 1) && !m.Has(keep.End() - 1);
    } else {
      assert Long32(d) == d;
    }
  }

  /** The table after segment `gone` was merged into segment `keep`. */
  function MergeAt(s: seq<DolSegment>, keep: nat, gone: nat): (t: seq<DolSegment>)
    requires keep < |s| && gone < |s| && keep != gone
    ensures |t| == |s|
  {
    s[keep := Merged(s[keep], s[gone])][gone := NONE]
  }

  function Live(s: seq<DolSegment>): set<nat> {
    set k: nat | k < |s| && s[k].size > 0
  }

  /** The two segments may be merged in this direction. */
  predicate Mergeable(s: seq<DolSegment>, keep: nat, gone: nat) {
    && Tidy(s) && keep < |s| && gone < |s| && keep != gone && 0 < s[keep].size && 0 < s[gone].size
    && s[keep].Overlaps(s[gone]) && s[keep].start <= s[gone].start
  }

  lemma LongIs(d: int)
    requires -0x1_0000_0000 < d < 0x1_0000_0000
    ensures Long32(d) ==
            if d < -0x8000_0000 then d + 0x1_0000_0000 else if d < 0x8000_0000 then d else d - 0x1_0000_0000
  {}

  lemma WordIs(n: int)
    requires -0x1_0000_0000 < n < 0x2_0000_0000
    ensures Word32(n) == if n < 0 then n + 0x1_0000_0000 else if n < 0x1_0000_0000 then n else n - 0x1_0000_0000
  {}

  /** The merged segment ends where one of the two did, and where the later one did if the difference fits. */
  lemma MergedEnd(k: DolSegment, g: DolSegment)
    requires Aligned(k) && Aligned(g) && 0 < k.size && 0 < g.size && k.Overlaps(g) && k.start <= g.start
    ensures var m := Merged(k, g);
            && Aligned(m) && 0 < m.size && m.start == k.start && m.bitmap == k.bitmap + g.bitmap
            && (m.End() == k.End() || m.End() == g.End())
            && (EndsFit(k, g) ==> m.End() == if k.End() < g.End() then g.End() else k.End())
  {
    var d := g.End() - k.End();
    LongIs(d);
    WordIs(k.size + Long32(d));
    hide Long32, Word32;
  }

  /** If the difference does not fit, the merged segment ends where the earlier one did. */
  lemma FarMergeEndsEarly(k: DolSegment, g: DolSegment)
    requires Aligned(k) && Aligned(g) && 0 < k.size && 0 < g.size && k.Overlaps(g) && k.start <= g.start
    requires !EndsFit(k, g)
    ensures Merged(k, g).End() == if k.End() < g.End() then k.End() else g.End()
  {
    LongIs(g.End() - k.End());
    WordIs(k.size + Long32(g.End() - k.End()));
    hide Long32, Word32;
  }

  /** Every merge keeps the table tidy and uses up one live segment. */
  lemma MergeKeepsTidy(s: seq<DolSegment>, keep: nat, gone: nat)
    requires Mergeable(s, keep, gone)
    ensures Tidy(MergeAt(s, keep, gone)) && Live(MergeAt(s, keep, gone)) == Live(s) - {gone}
  {
    MergedEnd(s[keep], s[gone]);
    hide Merged, Aligned;
    assert Aligned(NONE) by { NoneIsAligned(); }
  }

  lemma NoneIsAligned()
    ensures Aligned(NONE)
  {}

  /** No merge brings in an address, not even one that loses some. */
  lemma MergeAddsNothing(s: seq<DolSegment>, keep: nat, gone: nat)
    requires Mergeable(s, keep, gone)
    ensures NoMore(s, MergeAt(s, keep, gone))
  {
    MergedEnd(s[keep], s[gone]);
    hide Merged, Tidy;
    var t := MergeAt(s, keep, gone);
    forall a | Covered(t, a) ensures Covered(s, a) {
      var k :| 0 <= k < |t| && t[k].Has(a);
      assert s[k].Has(a) || (k == keep && s[gone].Has(a));
    }
  }

  lemma MergeKeepsMemory(s: seq<DolSegment>, keep: nat, gone: nat)
    requires Mergeable(s, keep, gone) && EndsFit(s[keep], s[gone])
    ensures SameMemory(s, MergeAt(s, keep, gone))
  {
    MergedEnd(s[keep], s[gone]);
    MergeAddsNothing(s, keep, gone);
    hide Merged, Tidy;
    var t := MergeAt(s, keep, gone);
    forall a | Covered(s, a) ensures Covered(t, a) {
      var k :| 0 <= k < |s| && s[k].Has(a);
      assert t[if k == gone then keep else k].Has(a);
    }
  }

  /** Every merge keeps the sections. */
  lemma MergeKeepsSections(s: seq<DolSegment>, keep: nat, gone: nat)
    requires Mergeable(s, keep, gone)
    ensures SameSections(s, MergeAt(s, keep, gone))
  {
    MergedEnd(s[keep], s[gone]);
    hide Merged, Tidy;
    var t := MergeAt(s, keep, gone);
    forall b ensures Owned(s, b) <==> Owned(t, b) {
      if Owned(s, b) {
        var k :| 0 <= k < |s| && b in s[k].bitmap;
        assert b in t[if k == gone then keep else k].bitmap;
      }
      if Owned(t, b) {
        var k :| 0 <= k < |t| && b in t[k].bitmap;
        assert b in s[k].bitmap || (k == keep && b in s[gone].bitmap);
      }
    }
  }

  lemma MergeKeepsOwners(h: seq<Section>, s: seq<DolSegment>, keep: nat, gone: nat)
    requires Mergeable(s, keep, gone) && EndsFit(s[keep], s[gone]) && AllHold(h, s)
    ensures AllHold(h, MergeAt(s, keep, gone))
  {
    MergedEnd(s[keep], s[gone]);
    hide Merged;
  }

  /** Between the ends of two overlapping segments there is no break. */
  lemma OverlappingEnds(s: seq<DolSegment>, keep: nat, gone: nat)
    requires Near(s) && keep < |s| && gone < |s| && 0 < s[keep].size && 0 < s[gone].size
    requires s[keep].Overlaps(s[gone])
    ensures EndsFit(s[keep], s[gone])
  {
    forall x | s[gone].End() <= x < s[keep].End() ensures Covered(s, x) { assert s[keep].Has(x); }
    forall x | s[keep].End() <= x < s[gone].End() ensures Covered(s, x) { assert s[gone].Has(x); }
    assert Unbroken(s, s[gone].End(), s[keep].End()) && Unbroken(s, s[keep].End(), s[gone].End());
  }

  /** Merging breaks up no run of memory and brings in no new end. */
  lemma MergeKeepsNear(s: seq<DolSegment>, keep: nat, gone: nat)
    requires Mergeable(s, keep, gone) && Near(s)
    ensures Near(MergeAt(s, keep, gone))
  {
    OverlappingEnds(s, keep, gone);
    MergedEnd(s[keep], s[gone]);
    MergeKeepsMemory(s, keep, gone);
    hide Merged, Tidy, Covered;
    var t := MergeAt(s, keep, gone);
    forall k, l | 0 <= k < |t| && 0 <= l < |t| && 0 < t[k].size && 0 < t[l].size && Unbroken(t, t[l].End(), t[k].End())
      ensures t[k].End() - t[l].End() < 0x8000_0000
    {
      assert Unbroken(s, t[l].End(), t[k].End());
      var k' := if k == keep && s[keep].End() < s[gone].End() then gone else k;
      var l' := if l == keep && s[keep].End() < s[gone].End() then gone else l;
      assert s[k'].End() == t[k].End() && s[l'].End() == t[l].End();
    }
  }

  /** The segment at i overlaps none of the first j. */
  predicate ClearOf(s: seq<DolSegment>, i: nat, j: nat)
    requires i < |s| && j <= |s|
  {
    forall k :: 0 <= k < j && s[k].size > 0 ==> !s[k].Overlaps(s[i])
  }

  /** A segment that swallows an overlapping one stays clear of whatever both were clear of. */
  lemma SwallowStaysClear(s: seq<DolSegment>, i: nat, j: nat)
    requires j < i < |s| && Mergeable(s, i, j) && ApartUpTo(s, i) && ClearOf(s, i, j)
    ensures ApartUpTo(MergeAt(s, i, j), i) && ClearOf(MergeAt(s, i, j), i, j + 1)
  {
    MergedEnd(s[i], s[j]);
    hide Merged, Aligned;
  }

  ghost predicate Fixable(s: seq<DolSegment>, i: nat, j: nat) {
    Tidy(s) && j <= i <= |s| && (j > 0 ==> i < |s| && 0 < s[i].size)
  }

  predicate Clash(s: seq<DolSegment>, i: nat, j: nat)
    requires j < i < |s|
  {
    0 < s[i].size && 0 < s[j].size && s[i].Overlaps(s[j])
  }

  /** Of two segments that clash, the one that starts lower is kept, and i on a tie. */
  function After(s: seq<DolSegment>, i: nat, j: nat): (t: seq<DolSegment>)
    requires j < i < |s|
    ensures |t| == |s|
  {
    if s[j].start < s[i].start then MergeAt(s, j, i) else MergeAt(s, i, j)
  }

  lemma AfterIsFixable(s: seq<DolSegment>, i: nat, j: nat)
    requires Fixable(s, i, j) && j < i < |s| && Clash(s, i, j)
    ensures Tidy(After(s, i, j)) && Live(After(s, i, j)) < Live(s)
    ensures s[j].start < s[i].start || 0 < After(s, i, j)[i].size
  {
    hide Tidy, Merged, Aligned, MergeAt;
    assert i in Live(s) && j in Live(s);
    if s[j].start < s[i].start {
      MergeKeepsTidy(s, j, i);
    } else {
      MergeKeepsTidy(s, i, j);
      assert i in Live(MergeAt(s, i, j));
    }
  }

  /** The nested loops of fix_dol_segments_overlaps from segments i and j on: a clash is merged, and the scan begins
      again at segment 1 if that deletes segment i. */
  ghost function Fix(s: seq<DolSegment>, i: nat, j: nat): (t: seq<DolSegment>)
    requires Fixable(s, i, j)
    ensures |t| == |s| && Tidy(t) && Live(t) <= Live(s)
    decreases Live(s), |s| - i, i - j
  {
    hide Tidy, After, Clash, Live;
    if i == |s| then s
    else if s[i].size == 0 || j == i then Fix(s, i + 1, 0)
    else if !Clash(s, i, j) then Fix(s, i, j + 1)
    else
      AfterIsFixable(s, i, j);
      if s[j].start < s[i].start then Fix(After(s, i, j), 1, 0) else Fix(After(s, i, j), i, j + 1)
  }

  lemma FixEnds(s: seq<DolSegment>)
    requires Tidy(s)
    ensures Fix(s, |s|, 0) == s
  {}

  lemma FixSkips(s: seq<DolSegment>, i: nat, j: nat)
    requires Fixable(s, i, j) && i < |s| && (s[i].size == 0 || j == i)
    ensures Fixable(s, i + 1, 0)
    ensures Fix(s, i, j) == Fix(s, i + 1, 0)
  {
    hide Tidy, After, Clash, Live;
  }

  lemma FixPasses(s: seq<DolSegment>, i: nat, j: nat)
    requires Fixable(s, i, j) && j < i < |s| && 0 < s[i].size && !Clash(s, i, j)
    ensures Fixable(s, i, j + 1)
    ensures Fix(s, i, j) == Fix(s, i, j + 1)
  {
    hide Tidy, After, Clash, Live;
  }

  lemma FixMerges(s: seq<DolSegment>, i: nat, j: nat, t: seq<DolSegment>)
    requires Fixable(s, i, j) && j < i < |s| && Clash(s, i, j) && t == After(s, i, j)
    ensures s[j].start < s[i].start ==> Fixable(t, 1, 0) && Fix(s, i, j) == Fix(t, 1, 0)
    ensures s[j].start >= s[i].start ==> Fixable(t, i, j + 1) && Fix(s, i, j) == Fix(t, i, j + 1)
    ensures Live(t) < Live(s)
  {
    AfterIsFixable(s, i, j);
    assert 0 < s[i].size;
    hide Tidy, After, Clash, Live;
  }

  /** Whatever the table: in the end no two segments overlap, every section is owned as before, and no address has
      come in. */
  lemma {:induction false} FixSeparates(s: seq<DolSegment>, i: nat, j: nat)
    requires Fixable(s, i, j) && ApartUpTo(s, i) && (i < |s| ==> ClearOf(s, i, j))
    ensures ApartUpTo(Fix(s, i, j), |s|) && SameSections(s, Fix(s, i, j)) && NoMore(s, Fix(s, i, j))
    decreases Live(s), |s| - i, i - j
  {
    hide Fix, Tidy, Merged, Aligned, SameSections, NoMore, Live;
    SameIsReflexive(s);
    if i == |s| {
      FixEnds(s);
    } else if s[i].size == 0 || j == i {
      FixSkips(s, i, j);
      FixSeparates(s, i + 1, 0);
    } else if !Clash(s, i, j) {
      FixPasses(s, i, j);
      FixSeparates(s, i, j + 1);
    } else {
      var t := After(s, i, j);
      var keep, gone := if s[j].start < s[i].start then j else i, if s[j].start < s[i].start then i else j;
      MergeAddsNothing(s, keep, gone);
      MergeKeepsSections(s, keep, gone);
      FixMerges(s, i, j, t);
      if keep == j {
        FixSeparates(t, 1, 0);
      } else {
        SwallowStaysClear(s, i, j);
        FixSeparates(t, i, j + 1);
      }
      SameChains(s, t, Fix(s, i, j));
    }
  }

  lemma SameIsReflexive(s: seq<DolSegment>)
    ensures SameMemory(s, s) && SameSections(s, s) && NoMore(s, s)
  {}

  lemma SameChains(r: seq<DolSegment>, s: seq<DolSegment>, t: seq<DolSegment>)
    ensures SameMemory(r, s) && SameMemory(s, t) ==> SameMemory(r, t)
    ensures SameSections(r, s) && SameSections(s, t) ==> SameSections(r, t)
    ensures NoMore(r, s) && NoMore(s, t) ==> NoMore(r, t)
  {}

  /** If ends are near, no address is lost either and every section stays inside its owner. */
  lemma {:induction false} FixKeepsMemory(h: seq<Section>, s: seq<DolSegment>, i: nat, j: nat)
    requires Fixable(s, i, j) && Near(s)
    ensures SameMemory(s, Fix(s, i, j)) && (AllHold(h, s) ==> AllHold(h, Fix(s, i, j)))
    decreases Live(s), |s| - i, i - j
  {
    hide Fix, Tidy, Merged, Aligned, SameMemory, Near, AllHold, Live;
    SameIsReflexive(s);
    if i == |s| {
      FixEnds(s);
    } else if s[i].size == 0 || j == i {
      FixSkips(s, i, j);
      FixKeepsMemory(h, s, i + 1, 0);
    } else if !Clash(s, i, j) {
      FixPasses(s, i, j);
      FixKeepsMemory(h, s, i, j + 1);
    } else {
      var t := After(s, i, j);
      var keep, gone := if s[j].start < s[i].start then j else i, if s[j].start < s[i].start then i else j;
      OverlappingEnds(s, keep, gone);
      MergeKeepsMemory(s, keep, gone);
      MergeKeepsNear(s, keep, gone);
      if AllHold(h, s) { MergeKeepsOwners(h, s, keep, gone); }
      FixMerges(s, i, j, t);
      if keep == j {
        FixKeepsMemory(h, t, 1, 0);
      } else {
        FixKeepsMemory(h, t, i, j + 1);
      }
      SameChains(s, t, Fix(s, i, j));
    }
  }

  /** A table without overlaps is left as it is. */
  lemma {:induction false} FixIsIdle(s: seq<DolSegment>, i: nat, j: nat)
    requires Fixable(s, i, j) && ApartUpTo(s, |s|)
    ensures Fix(s, i, j) == s
    decreases |s| - i, i - j
  {
    hide Fix, Tidy;
    if i == |s| {
      FixEnds(s);
    } else if s[i].size == 0 || j == i {
      FixSkips(s, i, j);
      FixIsIdle(s, i + 1, 0);
    } else {
      FixPasses(s, i, j);
      FixIsIdle(s, i, j + 1);
    }
  }

  /** Of two segments, the one that starts lower is kept, and the second on a tie. */
  function Kept(s: seq<DolSegment>): (k: nat)
    requires |s| == 2
    ensures k < 2
  {
    if s[0].start < s[1].start then 0 else 1
  }

  /** Entries not in use. */
  function Unused(n: nat): (r: seq<DolSegment>)
    ensures |r| == n
  {
    seq(n, _ => NONE)
  }

  lemma UnusedKeep(s: seq<DolSegment>, n: nat)
    requires Tidy(s)
    ensures Tidy(s + Unused(n)) && Live(s + Unused(n)) == Live(s)
    ensures ApartUpTo(s, |s|) ==> ApartUpTo(s + Unused(n), |s| + n)
  {
    NoneIsAligned();
    hide Aligned;
    var t := s + Unused(n);
    assert forall k :: |s| <= k < |t| ==> t[k] == NONE;
    assert forall k :: 0 <= k < |s| ==> t[k] == s[k];
  }

  lemma UnusedCover(s: seq<DolSegment>, n: nat, a: int)
    ensures Covered(s + Unused(n), a) <==> Covered(s, a)
  {
    var t := s + Unused(n);
    if Covered(s, a) {
      var k :| 0 <= k < |s| && s[k].Has(a);
      assert t[k].Has(a);
    }
    if Covered(t, a) {
      var k :| 0 <= k < |t| && t[k].Has(a);
      assert t[k] == if k < |s| then s[k] else NONE;
    }
  }

  /** Unused entries behind a table do not change the run on it. */
  lemma {:induction false} UnusedDoNothing(s: seq<DolSegment>, n: nat, i: nat, j: nat)
    requires Fixable(s, i, j)
    ensures Fixable(s + Unused(n), i, j)
    ensures ApartUpTo(Fix(s, i, j), |s|) ==> Fix(s + Unused(n), i, j) == Fix(s, i, j) + Unused(n)
    decreases Live(s), |s| - i, i - j
  {
    hide Fix, Tidy, Merged, Aligned, Live, ApartUpTo, Unused;
    var t := s + Unused(n);
    UnusedKeep(s, n);
    if i == |s| {
      FixEnds(s);
      if ApartUpTo(s, |s|) { FixIsIdle(t, i, 0); }
    } else if s[i].size == 0 || j == i {
      FixSkips(s, i, j);
      FixSkips(t, i, j);
      UnusedDoNothing(s, n, i + 1, 0);
    } else if !Clash(s, i, j) {
      FixPasses(s, i, j);
      FixPasses(t, i, j);
      UnusedDoNothing(s, n, i, j + 1);
    } else {
      FixMerges(s, i, j, After(s, i, j));
      assert After(t, i, j) == After(s, i, j) + Unused(n);
      FixMerges(t, i, j, After(t, i, j));
      if s[j].start < s[i].start {
        UnusedDoNothing(After(s, i, j), n, 1, 0);
      } else {
        UnusedDoNothing(After(s, i, j), n, i, j + 1);
      }
    }
  }

  /** So a run on a table followed by unused entries is the run on the table alone. */
  lemma RunIgnoresUnused(s: seq<DolSegment>, n: nat)
    requires Tidy(s)
    ensures Tidy(s + Unused(n)) && Fix(s + Unused(n), 0, 0) == Fix(s, 0, 0) + Unused(n)
    ensures forall a :: Covered(s + Unused(n), a) <==> Covered(s, a)
    ensures forall a :: Covered(Fix(s + Unused(n), 0, 0), a) <==> Covered(Fix(s, 0, 0), a)
    ensures SameMemory(s + Unused(n), Fix(s + Unused(n), 0, 0)) <==> SameMemory(s, Fix(s, 0, 0))
  {
    hide Fix, Tidy, Covered, Unused;
    UnusedKeep(s, n);
    ApartNone(s);
    FixSeparates(s, 0, 0);
    UnusedDoNothing(s, n, 0, 0);
    forall a
      ensures Covered(s + Unused(n), a) <==> Covered(s, a)
      ensures Covered(Fix(s, 0, 0) + Unused(n), a) <==> Covered(Fix(s, 0, 0), a)
    {
      UnusedCover(s, n, a);
      UnusedCover(Fix(s, 0, 0), n, a);
    }
  }

  /** A table of two segments keeps all their memory exactly when they do not overlap or the difference of their ends
      fits, however many unused entries follow. */
  lemma PairKeepsMemory(s: seq<DolSegment>, n: nat)
    requires |s| == 2 && Tidy(s) && 0 < s[0].size && 0 < s[1].size
    ensures Tidy(s + Unused(n))
    ensures SameMemory(s + Unused(n), Fix(s + Unused(n), 0, 0))
      <==> !s[0].Overlaps(s[1]) || EndsFit(s[Kept(s)], s[1 - Kept(s)])
  {
    hide Fix, Tidy, SameMemory, EndsFit, Unused;
    PairAlone(s);
    RunIgnoresUnused(s, n);
  }

  lemma PairAlone(s: seq<DolSegment>)
    requires |s| == 2 && Tidy(s) && 0 < s[0].size && 0 < s[1].size
    ensures SameMemory(s, Fix(s, 0, 0)) <==> !s[0].Overlaps(s[1]) || EndsFit(s[Kept(s)], s[1 - Kept(s)])
  {
    hide Fix, Aligned, Tidy, Merged, SameMemory;
    FixSkips(s, 0, 0);
    if !s[0].Overlaps(s[1]) {
      FixIsIdle(s, 1, 0);
      SameIsReflexive(s);
    } else {
      var k: nat := Kept(s);
      var t := MergeAt(s, k, 1 - k);
      FixMerges(s, 1, 0, t);
      MergeKeepsTidy(s, k, 1 - k);
      assert 1 - k !in Live(t);
      FixIsIdle(t, 1, if k == 0 then 0 else 1);
      PairMemory(s, t, k);
    }
  }

  /** A run on two segments that overlap leaves one, at the place and the start of the lower one, with the sections of
      both, and nothing at the other place. */
  lemma PairMerges(s: seq<DolSegment>)
    requires |s| == 2 && Tidy(s) && 0 < s[0].size && 0 < s[1].size && s[0].Overlaps(s[1])
    ensures var k: nat := if s[0].start < s[1].start then 0 else 1;
            var t := Fix(s, 0, 0);
            && t[1 - k] == NONE && t[k].start == s[k].start && t[k].bitmap == s[0].bitmap + s[1].bitmap
            && t[k].End() in {s[0].End(), s[1].End()}
  {
    hide Fix, Aligned, Tidy, Merged;
    var k: nat := Kept(s);
    var t := MergeAt(s, k, 1 - k);
    FixSkips(s, 0, 0);
    FixMerges(s, 1, 0, t);
    MergeKeepsTidy(s, k, 1 - k);
    assert 1 - k !in Live(t);
    FixIsIdle(t, 1, if k == 0 then 0 else 1);
    assert Aligned(s[0]) && Aligned(s[1]) by { AlignedParts(s); }
    MergedEnd(s[k], s[1 - k]);
  }

  lemma AlignedParts(s: seq<DolSegment>)
    requires Tidy(s)
    ensures forall k :: 0 <= k < |s| ==> Aligned(s[k])
  {}

  lemma PairMemory(s: seq<DolSegment>, t: seq<DolSegment>, k: nat)
    requires |s| == 2 && k < 2 && Mergeable(s, k, 1 - k) && t == MergeAt(s, k, 1 - k)
    ensures SameMemory(s, t) <==> EndsFit(s[k], s[1 - k])
  {
    assert Aligned(s[k]) && Aligned(s[1 - k]);
    MergeIsUnion(s[k], s[1 - k]);
    hide Merged, Tidy, Aligned, EndsFit, SameMemory;
    var m := Merged(s[k], s[1 - k]);
    forall a ensures (Covered(s, a) <==> s[k].Has(a) || s[1 - k].Has(a)) && (Covered(t, a) <==> m.Has(a)) {
      PairCovers(s, k, a);
      assert t[k] == m && t[1 - k] == NONE && !NONE.Has(a);
      PairCovers(t, k, a);
    }
    SameIs(s, t);
    hide Covered;
  }

  lemma PairCovers(s: seq<DolSegment>, k: nat, a: int)
    requires |s| == 2 && k < 2
    ensures Covered(s, a) <==> s[k].Has(a) || s[1 - k].Has(a)
  {
    if s[k].Has(a) || s[1 - k].Has(a) { assert Covered(s, a); }
  }

  lemma SameIs(s: seq<DolSegment>, t: seq<DolSegment>)
    ensures SameMemory(s, t) <==> forall a :: Covered(s, a) <==> Covered(t, a)
  {}

  const SMALL := DolSegment({0}, 0x1000, 0x2000)
  const BIG := DolSegment({1}, 0x2000, 0x9000_0000)

  /** A run that loses memory: a small segment takes over one of more than 2 GB. */
  lemma FarEndsLoseMemory(n: nat)
    ensures var s := [SMALL, BIG] + Unused(n); Tidy(s) && Covered(s, 0x5000) && !Covered(Fix(s, 0, 0), 0x5000)
  {
    hide Fix, Tidy, Covered, SMALL, BIG, Unused;
    FarAreTidy();
    FarAlone();
    RunIgnoresUnused([SMALL, BIG], n);
  }

  lemma FarAreTidy()
    ensures Tidy([SMALL, BIG])
  {
    hide Fix, Merged;
    assert Aligned(SMALL) && Aligned(BIG);
  }

  lemma FarMerge()
    ensures MergeAt([SMALL, BIG], 0, 1) == [DolSegment({0, 1}, 0x1000, 0x2000), NONE]
  {
    hide Fix, Aligned;
    assert Merged(SMALL, BIG) == DolSegment({0, 1}, 0x1000, 0x2000);
    hide Merged;
  }

  lemma FarAlone()
    requires Tidy([SMALL, BIG])
    ensures Covered([SMALL, BIG], 0x5000) && !Covered(Fix([SMALL, BIG], 0, 0), 0x5000)
  {
    hide Fix, Merged, Aligned, Tidy, Live;
    FarMerge();
    var s, t := [SMALL, BIG], [DolSegment({0, 1}, 0x1000, 0x2000), NONE];
    FixSkips(s, 0, 0);
    FixMerges(s, 1, 0, t);
    FixIsIdle(t, 1, 0);
    assert s[1].Has(0x5000) && !Covered(t, 0x5000);
  }

  // Three segments of which the first two end far apart and the third covers what their merge loses.
  const LOW := DolSegment({0}, 0, 0x2000)
  const WIDE := DolSegment({1}, 0x1000, 0x9000_0000)
  const REST := DolSegment({2}, 0x2000, 0x8fff_f000)

  /** Which memory survives depends on the order of the table: of the same three segments, one order keeps every
      address and another does not, so no condition on the segments alone is exact. */
  lemma OrderDecides(n: nat)
    ensures var s := [LOW, WIDE, REST] + Unused(n); Tidy(s) && SameMemory(s, Fix(s, 0, 0))
    ensures var s := [WIDE, REST, LOW] + Unused(n); Tidy(s) && !SameMemory(s, Fix(s, 0, 0))
  {
    hide SameMemory, Fix, Tidy, LOW, WIDE, REST, Unused;
    ThreeAreTidy();
    FirstOrder();
    SecondOrder();
    RunIgnoresUnused([LOW, WIDE, REST], n);
    RunIgnoresUnused([WIDE, REST, LOW], n);
  }

  lemma ThreeAreTidy()
    ensures Tidy([LOW, WIDE, REST]) && Tidy([WIDE, REST, LOW])
  {
    hide Fix, Merged;
    assert Aligned(LOW) && Aligned(WIDE) && Aligned(REST);
  }

  lemma ThreeMerge()
    ensures MergeAt([LOW, WIDE, REST], 0, 1) == [DolSegment({0, 1}, 0, 0x2000), NONE, REST]
    ensures MergeAt([WIDE, REST, LOW], 0, 1) == [DolSegment({1, 2}, 0x1000, 0x9000_0000), NONE, LOW]
    ensures MergeAt([DolSegment({1, 2}, 0x1000, 0x9000_0000), NONE, LOW], 2, 0)
         == [NONE, NONE, DolSegment({0, 1, 2}, 0, 0x2000)]
  {
    hide Fix, Aligned;
    var wider := DolSegment({1, 2}, 0x1000, 0x9000_0000);
    assert Merged(LOW, WIDE) == DolSegment({0, 1}, 0, 0x2000);
    assert Merged(WIDE, REST) == wider && Merged(LOW, wider) == DolSegment({0, 1, 2}, 0, 0x2000);
    hide Merged;
  }

  lemma FirstOrder()
    requires Tidy([LOW, WIDE, REST])
    ensures SameMemory([LOW, WIDE, REST], Fix([LOW, WIDE, REST], 0, 0))
  {
    hide Fix, Merged, Aligned, Tidy, Live;
    ThreeMerge();
    var s, t := [LOW, WIDE, REST], [DolSegment({0, 1}, 0, 0x2000), NONE, REST];
    FixSkips(s, 0, 0);
    FixMerges(s, 1, 0, t);
    FixIsIdle(t, 1, 0);
    forall x ensures Covered(s, x) <==> Covered(t, x) {
      assert s[0].Has(x) <==> t[0].Has(x);
      assert s[1].Has(x) ==> t[0].Has(x) || t[2].Has(x);
    }
  }

  lemma SecondOrder()
    requires Tidy([WIDE, REST, LOW])
    ensures !SameMemory([WIDE, REST, LOW], Fix([WIDE, REST, LOW], 0, 0))
  {
    hide Fix, Merged, Aligned, Tidy, Live;
    ThreeMerge();
    var s, t := [WIDE, REST, LOW], [DolSegment({1, 2}, 0x1000, 0x9000_0000), NONE, LOW];
    var u := [NONE, NONE, DolSegment({0, 1, 2}, 0, 0x2000)];
    FixSkips(s, 0, 0);
    FixMerges(s, 1, 0, t);
    FixSkips(t, 1, 0);
    FixMerges(t, 2, 0, u);
    FixIsIdle(u, 2, 1);
    assert s[1].Has(0x5000) && !Covered(u, 0x5000);
  }

  /** The inner loop of fix_dol_segments_overlaps for segment i; `restart` tells that i was deleted. */
  method Scan(seg: array<DolSegment>, i: nat) returns (restart: bool)
    requires i < seg.Length && seg[i].size > 0 && Tidy(seg[..])
    modifies seg
    ensures Tidy(seg[..]) && Live(seg[..]) <= Live(old(seg[..]))
    ensures restart ==> Live(seg[..]) < Live(old(seg[..])) && Fix(old(seg[..]), i, 0) == Fix(seg[..], 1, 0)
    ensures !restart ==> Fix(old(seg[..]), i, 0) == Fix(seg[..], i + 1, 0)
  {
    hide Fix, Tidy, Merged, Aligned, Live;
    var j := 0;
    while j < i
      invariant j <= i && Fixable(seg[..], i, j) && 0 < seg[i].size && Live(seg[..]) <= Live(old(seg[..]))
      invariant Fix(old(seg[..]), i, 0) == Fix(seg[..], i, j)
    {
      var p, pp := seg[i], seg[j];
      ghost var s := seg[..];
      if pp.size > 0 && p.Overlaps(pp) {
        FixMerges(s, i, j, After(s, i, j));
        if pp.start < p.start {
          seg[j] := Merged(pp, p);
          seg[i] := NONE;
          assert seg[..] == After(s, i, j);
          return true;
        }
        seg[i] := Merged(p, pp);
        seg[j] := NONE;
        assert seg[..] == After(s, i, j);
      } else {
        FixPasses(s, i, j);
      }
      j := j + 1;
    }
    FixSkips(seg[..], i, i);
    return false;
  }

  method FixOverlaps(seg: array<DolSegment>)
    requires Tidy(seg[..])
    modifies seg
    ensures seg[..] == Fix(old(seg[..]), 0, 0)
    ensures Tidy(seg[..]) && ApartUpTo(seg[..], seg.Length)
    ensures SameSections(old(seg[..]), seg[..]) && NoMore(old(seg[..]), seg[..])
    ensures Near(old(seg[..])) ==> SameMemory(old(seg[..]), seg[..])
    ensures Near(old(seg[..])) ==> forall h :: AllHold(h, old(seg[..])) ==> AllHold(h, seg[..])
  {
    hide Fix, Tidy, Near, SameMemory, SameSections, NoMore, Live, AllHold, ApartUpTo, ClearOf;
    ghost var s := seg[..];
    assert ApartUpTo(s, 0) && (0 < |s| ==> ClearOf(s, 0, 0)) by { ApartNone(s); }
    FixSeparates(s, 0, 0);
    if Near(s) {
      forall h ensures SameMemory(s, Fix(s, 0, 0)) && (AllHold(h, s) ==> AllHold(h, Fix(s, 0, 0))) {
        FixKeepsMemory(h, s, 0, 0);
      }
      FixKeepsMemory([], s, 0, 0);
    }
    var i := 0;
    while i < seg.Length
      invariant 0 <= i <= seg.Length && Tidy(seg[..]) && Fix(s, 0, 0) == Fix(seg[..], i, 0)
      decreases Live(seg[..]), seg.Length - i
    {
      if seg[i].size == 0 {
        FixSkips(seg[..], i, 0);
      } else {
        var restart := Scan(seg, i);
        if restart {
          i := 0;
        }
      }
      i := i + 1;
    }
    FixEnds(seg[..]);
  }

  lemma ApartNone(s: seq<DolSegment>)
    ensures ApartUpTo(s, 0) && (0 < |s| ==> ClearOf(s, 0, 0))
  {}

  function PageStart(s: Section): ulong { AlignDown(s.address, 0x1000) }

  function PageEnd(s: Section): ulong { AlignUp(s.End(), 0x1000) }

  /** A section in use, rounded up, stays below the top of memory. */
  predicate InReach(h: seq<Section>) {
    forall b :: 0 <= b < |h| && 0 < h[b].size ==> h[b].End() + 0xfff < 0x1_0000_0000
  }

  /** Address a lies in the whole pages of one of the first n sections, and that section is in use. */
  ghost predicate InPages(h: seq<Section>, n: nat, a: int)
    requires n <= |h|
  {
    exists b :: 0 <= b < n && 0 < h[b].size && PageStart(h[b]) <= a < PageEnd(h[b])
  }

  /** Sections whose pages belong to one unbroken run of memory end less than 2^31 apart. */
  ghost predicate NearSections(h: seq<Section>) {
    forall b, c :: 0 <= b < |h| && 0 <= c < |h| && 0 < h[b].size && 0 < h[c].size ==>
      (forall x :: PageEnd(h[c]) <= x < PageEnd(h[b]) ==> InPages(h, |h|, x)) ==>
        PageEnd(h[b]) - PageEnd(h[c]) < 0x8000_0000
  }

  /** The segment of one section: adj1 and adj2 round it out to whole pages. */
  function SegmentOf(h: seq<Section>, b: nat): DolSegment
    requires InReach(h) && b < |h| && 0 < h[b].size
  {
    var start := PageStart(h[b]);
    var adj1 := h[b].address - start;
    var adj2 := PageEnd(h[b]) - h[b].End();
    DolSegment({b}, start, adj1 + h[b].size + adj2)
  }

  /** seg->size as load_dol_segments computes it in 32-bit words. */
  function RawSize(s: Section): uint32 {
    var end1 := Word32(s.End());
    var adj1 := s.address - PageStart(s);
    var adj2 := PageGap(end1);
    Word32(adj1 + s.size + adj2)
  }

  /** PAGE_ALIGN(end) - end */
  function PageGap(end: uint32): uint32 { Word32(AlignDown(Word32(end + 0xfff), 0x1000) - end) }

  lemma {:induction false} PageGapIs(end: uint32)
    ensures PageGap(end) == if end + 0xfff < 0x1_0000_0000 then AlignUp(end, 0x1000) - end else 0x1_0000_0000 - end
    ensures end == 0 ==> PageGap(end) == 0
  {
    Multiples(0, AlignUp(end, 0x1000), 0x1000);
    WordIs(end + 0xfff);
    var x := Word32(end + 0xfff);
    var r: int := AlignDown(x, 0x1000);
    if end + 0xfff < 0x1_0000_0000 {
      assert r == AlignUp(end, 0x1000);
    } else {
      Multiples(0, r, 0x1000);
    }
    hide AlignDown, AlignUp, Word32;
    WordIs(r - end);
  }

  /** dol_seg_end and dol_seg_overlaps in 32-bit words. */
  function End32(start: uint32, size: uint32): uint32 { Word32(start + size) }

  predicate Overlaps32(start: uint32, size: uint32, start': uint32, size': uint32) {
    !(start >= End32(start', size') || start' >= End32(start, size))
  }

  lemma {:induction false} RawSizeIs(s: Section)
    requires 0 < s.size && s.End() <= 0x1_0000_0000
    ensures var end := if s.End() + 0xfff < 0x1_0000_0000 then PageEnd(s) else 0x1_0000_0000;
            RawSize(s) == Word32(end - PageStart(s))
  {
    hide PageGap, AlignUp, AlignDown, Word32;
    var end := Word32(s.End());
    WordIs(s.End());
    PageGapIs(end);
    hide PageStart;
    if s.End() == 0x1_0000_0000 {
      assert end == 0;
    } else {
      assert end == s.End();
    }
  }

  /** The computed segment is the whole pages of the section exactly when those end below 4 GB; else it ends at 0. */
  lemma {:induction false} RawSegment(h: seq<Section>, b: nat)
    requires b < |h| && 0 < h[b].size && h[b].End() <= 0x1_0000_0000
    ensures End32(PageStart(h[b]), RawSize(h[b])) == PageEnd(h[b]) <==> h[b].End() + 0xfff < 0x1_0000_0000
    ensures h[b].End() + 0xfff >= 0x1_0000_0000 ==> End32(PageStart(h[b]), RawSize(h[b])) == 0
    ensures InReach(h) ==> RawSize(h[b]) == SegmentOf(h, b).size
  {
    hide RawSize, AlignUp, AlignDown, Word32;
    var s := h[b];
    var start, end := PageStart(s), PageEnd(s);
    RawSizeIs(s);
    WordIs(end - start);
    WordIs(0x1_0000_0000 - start);
    WordIs(start + RawSize(s));
    hide PageStart, PageEnd;
  }

  /** A segment whose pages reach the top of the address space is never seen to overlap anything, and every other one
      is seen to overlap something: itself. */
  lemma TopPageEscapes(h: seq<Section>, b: nat)
    requires b < |h| && 0 < h[b].size && h[b].End() <= 0x1_0000_0000
    ensures (exists start: uint32, size: uint32 :: Overlaps32(PageStart(h[b]), RawSize(h[b]), start, size))
      <==> h[b].End() + 0xfff < 0x1_0000_0000
  {
    RawSegment(h, b);
    if h[b].End() + 0xfff < 0x1_0000_0000 {
      assert Overlaps32(PageStart(h[b]), RawSize(h[b]), PageStart(h[b]), RawSize(h[b]));
    }
  }

  ghost predicate CoversPages(h: seq<Section>, segs: seq<DolSegment>, n: nat)
    requires n <= |h|
  {
    forall a :: Covered(segs, a) <==> InPages(h, n, a)
  }

  ghost predicate OwnsSections(h: seq<Section>, segs: seq<DolSegment>, n: nat)
    requires n <= |h|
  {
    forall b: nat :: Owned(segs, b) <==> b < n && 0 < h[b].size
  }

  ghost predicate EndsAtPages(h: seq<Section>, segs: seq<DolSegment>, n: nat)
    requires n <= |h|
  {
    forall k :: 0 <= k < |segs| && 0 < segs[k].size ==>
      exists b :: 0 <= b < n && 0 < h[b].size && segs[k].End() == PageEnd(h[b])
  }

  /** The first n sections have been turned into segments. */
  ghost predicate LoadedUpTo(h: seq<Section>, segs: seq<DolSegment>, n: nat)
    requires n <= |h|
  {
    CoversPages(h, segs, n) && OwnsSections(h, segs, n) && EndsAtPages(h, segs, n) && Sound(h, segs)
  }

  lemma NothingLoaded(h: seq<Section>, segs: seq<DolSegment>)
    requires forall k :: 0 <= k < |segs| ==> segs[k] == NONE
    ensures LoadedUpTo(h, segs, 0)
  {}

  lemma SegmentOfIsSound(h: seq<Section>, b: nat)
    requires InReach(h) && b < |h| && 0 < h[b].size
    ensures var s := SegmentOf(h, b);
            SegmentOk(h, s) && s.start == PageStart(h[b]) && s.End() == PageEnd(h[b]) && 0 < s.size && s.bitmap == {b}
  {
    hide Aligned;
    assert Aligned(SegmentOf(h, b)) by { SegmentOfIsAligned(h, b); }
  }

  lemma SegmentOfIsAligned(h: seq<Section>, b: nat)
    requires InReach(h) && b < |h| && 0 < h[b].size
    ensures Aligned(SegmentOf(h, b))
  {
    hide AlignDown, AlignUp;
  }

  /** The table with the segment of section i at its free place n. */
  ghost predicate Adds(h: seq<Section>, segs: seq<DolSegment>, n: nat, i: nat, t: seq<DolSegment>) {
    && i < |h| && n < |segs| == |t| && segs[n] == NONE && InReach(h) && 0 < h[i].size
    && t == segs[n := SegmentOf(h, i)]
  }

  lemma PutCovers(segs: seq<DolSegment>, n: nat, x: DolSegment, a: int)
    requires n < |segs| && segs[n] == NONE
    ensures Covered(segs[n := x], a) <==> Covered(segs, a) || x.Has(a)
  {
    var t := segs[n := x];
    if Covered(segs, a) {
      var k :| 0 <= k < |segs| && segs[k].Has(a);
      assert t[k].Has(a);
    }
    if x.Has(a) { assert t[n].Has(a); }
  }

  lemma OneMorePage(h: seq<Section>, i: nat, a: int)
    requires i < |h| && 0 < h[i].size && InReach(h)
    ensures InPages(h, i + 1, a) <==> InPages(h, i, a) || PageStart(h[i]) <= a < PageEnd(h[i])
  {}

  lemma AddsMemory(h: seq<Section>, segs: seq<DolSegment>, n: nat, i: nat, t: seq<DolSegment>)
    requires Adds(h, segs, n, i, t) && CoversPages(h, segs, i)
    ensures CoversPages(h, t, i + 1)
  {
    assert i + 1 <= |h|;
    hide Adds, Covered, InPages;
    forall a ensures Covered(t, a) <==> InPages(h, i + 1, a) {
      AddsAddress(h, segs, n, i, t, a);
    }
  }

  lemma AddsAddress(h: seq<Section>, segs: seq<DolSegment>, n: nat, i: nat, t: seq<DolSegment>, a: int)
    requires Adds(h, segs, n, i, t) && CoversPages(h, segs, i)
    ensures Covered(t, a) <==> InPages(h, i + 1, a)
  {
    assert Covered(segs, a) <==> InPages(h, i, a);
    hide SegmentOf, PageStart, PageEnd, Covered, InPages, InReach, CoversPages, DolSegment.Has;
    PutCovers(segs, n, SegmentOf(h, i), a);
    OneMorePage(h, i, a);
    SegmentOfHas(h, i, a);
  }

  lemma SegmentOfHas(h: seq<Section>, b: nat, a: int)
    requires InReach(h) && b < |h| && 0 < h[b].size
    ensures SegmentOf(h, b).Has(a) <==> PageStart(h[b]) <= a < PageEnd(h[b])
  {
    SegmentOfIsSound(h, b);
    hide SegmentOf, PageStart, PageEnd, SegmentOk;
  }

  lemma AddsSection(h: seq<Section>, segs: seq<DolSegment>, n: nat, i: nat, t: seq<DolSegment>)
    requires Adds(h, segs, n, i, t) && OwnsSections(h, segs, i) && Sound(h, segs)
    ensures OwnsSections(h, t, i + 1) && Sound(h, t)
  {
    SegmentOfIsSound(h, i);
    hide SegmentOf, SegmentOk;
    forall k | 0 <= k < |t| && k != n ensures t[k].bitmap !! t[n].bitmap {
      assert !Owned(segs, i);
    }
    forall b: nat ensures Owned(t, b) <==> b < i + 1 && 0 < h[b].size {
      if Owned(segs, b) {
        var k :| 0 <= k < |segs| && b in segs[k].bitmap;
        assert b in t[k].bitmap;
      }
      if b == i { assert b in t[n].bitmap; }
      if Owned(t, b) {
        var k :| 0 <= k < |t| && b in t[k].bitmap;
        assert k == n || b in segs[k].bitmap;
      }
    }
  }

  lemma AddsEnd(h: seq<Section>, segs: seq<DolSegment>, n: nat, i: nat, t: seq<DolSegment>)
    requires Adds(h, segs, n, i, t) && EndsAtPages(h, segs, i)
    ensures EndsAtPages(h, t, i + 1)
  {}

  lemma LoadOne(h: seq<Section>, segs: seq<DolSegment>, n: nat, i: nat, t: seq<DolSegment>)
    requires Adds(h, segs, n, i, t) && LoadedUpTo(h, segs, i)
    ensures LoadedUpTo(h, t, i + 1)
  {
    AddsMemory(h, segs, n, i, t);
    AddsSection(h, segs, n, i, t);
    AddsEnd(h, segs, n, i, t);
    hide CoversPages, OwnsSections, EndsAtPages, Sound, Adds;
  }

  lemma SkipOne(h: seq<Section>, segs: seq<DolSegment>, i: nat)
    requires i < |h| && h[i].size == 0 && LoadedUpTo(h, segs, i)
    ensures LoadedUpTo(h, segs, i + 1)
  {}

  method Put(seg: array<DolSegment>, n: nat, h: seq<Section>, i: nat)
    requires n < seg.Length && seg[n] == NONE && InReach(h) && i < |h| && 0 < h[i].size
    modifies seg
    ensures Adds(h, old(seg[..]), n, i, seg[..])
  {
    seg[n] := SegmentOf(h, i);
  }

  /** One segment for each of the first b sections that is in use, in order. */
  function InUse(h: seq<Section>, b: nat): seq<DolSegment>
    requires InReach(h) && b <= |h|
  {
    if b == 0 then []
    else if h[b - 1].size == 0 then InUse(h, b - 1)
    else InUse(h, b - 1) + [SegmentOf(h, b - 1)]
  }

  /** load_dol_segments: n segments, one for each section in use, and nothing behind them. */
  method LoadSegments(seg: array<DolSegment>, h: seq<Section>) returns (n: nat)
    requires |h| == DOL_MAX_SECT == seg.Length && InReach(h)
    requires forall k :: 0 <= k < seg.Length ==> seg[k] == NONE
    modifies seg
    ensures n <= seg.Length && seg[..n] == InUse(h, |h|)
    ensures forall k :: n <= k < seg.Length ==> seg[k] == NONE
    ensures LoadedUpTo(h, seg[..], |h|)
  {
    hide LoadedUpTo, SegmentOf, InReach, Adds;
    NothingLoaded(h, seg[..]);
    n := 0;
    var i := 0;
    while i < DOL_MAX_SECT
      invariant 0 <= n <= i <= DOL_MAX_SECT && seg[..n] == InUse(h, i)
      invariant forall k :: n <= k < seg.Length ==> seg[k] == NONE
      invariant LoadedUpTo(h, seg[..], i)
    {
      if h[i].size == 0 {
        SkipOne(h, seg[..], i);
      } else {
        ghost var s := seg[..];
        Put(seg, n, h, i);
        PutIs(h, s, n, i, seg[..]);
        LoadOne(h, s, n, i, seg[..]);
        n := n + 1;
      }
      i := i + 1;
    }
  }

  lemma PutIs(h: seq<Section>, s: seq<DolSegment>, n: nat, i: nat, t: seq<DolSegment>)
    requires Adds(h, s, n, i, t)
    ensures |t| == |s| && t[..n] == s[..n] && t[n] == SegmentOf(h, i) && t[n + 1..] == s[n + 1..]
  {}

  /** The segments of a header: pairwise apart and page aligned, covering exactly the pages of the sections in
      use, each section inside the one segment that owns its bit. */
  ghost predicate Converted(h: seq<Section>, segs: seq<DolSegment>) {
    && Sound(h, segs) && ApartUpTo(segs, |segs|)
    && CoversPages(h, segs, |h|) && OwnsSections(h, segs, |h|)
  }

  lemma LoadedIsNear(h: seq<Section>, segs: seq<DolSegment>)
    requires LoadedUpTo(h, segs, |h|) && NearSections(h)
    ensures Near(segs)
  {
    hide Covered, InPages, PageEnd, Sound, OwnsSections;
  }

  /** The pages of a section begin and end less than a page from it. */
  lemma PagesAreTight(s: Section)
    ensures PageStart(s) % 0x1000 == 0 && PageStart(s) <= s.address < PageStart(s) + 0x1000
    ensures PageEnd(s) % 0x1000 == 0 && s.End() <= PageEnd(s) < s.End() + 0x1000
  {}

  /** Every page of a converted segment holds an address of one of its sections. */
  lemma {:induction false} PageIsNeeded(h: seq<Section>, segs: seq<DolSegment>, k: nat, x: int)
    requires Converted(h, segs) && k < |segs| && segs[k].Has(x) && x % 0x1000 == 0
    ensures exists b: nat, a :: b in segs[k].bitmap && b < |h| && h[b].Has(a) && x <= a < x + 0x1000
  {
    assert Covered(segs, x) && InPages(h, |h|, x) && Aligned(segs[k]);
    hide PageStart, PageEnd, Converted, Aligned;
    var b: nat :| b < |h| && 0 < h[b].size && PageStart(h[b]) <= x < PageEnd(h[b]);
    hide InPages, Covered;
    var a := SectionOnPage(h[b], x);
    PageInside(segs[k], x);
    CoveringSectionIsOwned(h, segs, k, b, a);
  }

  lemma {:induction false} SectionOnPage(s: Section, x: int) returns (a: int)
    requires 0 < s.size && PageStart(s) <= x < PageEnd(s) && x % 0x1000 == 0
    ensures s.Has(a) && x <= a < x + 0x1000
  {
    hide PageStart, PageEnd;
    PagesAreTight(s);
    Multiples(PageStart(s), x, 0x1000);
    Multiples(x, PageEnd(s), 0x1000);
    a := if x < s.address then s.address else x;
    PageMeets(s.address, s.End(), PageStart(s), PageEnd(s), x);
  }

  lemma {:induction false} PageInside(s: DolSegment, x: int)
    requires Aligned(s) && s.Has(x) && x % 0x1000 == 0
    ensures x + 0x1000 <= s.End()
  {
    Multiples(s.start, s.size, 0x1000);
    Multiples(x, s.End(), 0x1000);
  }

  lemma PageMeets(address: int, end: int, start: int, pageEnd: int, x: int)
    requires start <= address < start + 0x1000 && end <= pageEnd < end + 0x1000 && address < end
    requires start <= x < pageEnd && x % 0x1000 == 0 && start % 0x1000 == 0 && pageEnd % 0x1000 == 0
    ensures var a := if x < address then address else x; a < x + 0x1000 && address <= a < end
  {}

  ghost predicate FromSection(h: seq<Section>, n: nat, s: DolSegment)
    requires InReach(h) && n <= |h|
  {
    exists b: nat :: b < n && 0 < h[b].size && s == SegmentOf(h, b)
  }

  /** Each entry of the table is the segment of one section in use. */
  lemma {:induction false} InUseAreSections(h: seq<Section>, n: nat)
    requires InReach(h) && n <= |h|
    ensures forall x :: 0 <= x < |InUse(h, n)| ==> FromSection(h, n, InUse(h, n)[x])
  {
    hide SegmentOf, InReach;
    if n > 0 {
      InUseAreSections(h, n - 1);
      var u := InUse(h, n - 1);
      forall x | 0 <= x < |u| ensures FromSection(h, n, u[x]) {
        assert FromSection(h, n - 1, u[x]);
        var b: nat :| b < n - 1 && 0 < h[b].size && u[x] == SegmentOf(h, b);
      }
      assert 0 < h[n - 1].size ==> FromSection(h, n, SegmentOf(h, n - 1));
      hide FromSection;
    }
  }

  /** Each section in use has its segment in the table. */
  lemma {:induction false} SectionsAreInUse(h: seq<Section>, n: nat, b: nat)
    requires InReach(h) && b < n <= |h| && 0 < h[b].size
    ensures SegmentOf(h, b) in InUse(h, n)
  {
    hide SegmentOf, InReach;
    if b < n - 1 {
      SectionsAreInUse(h, n - 1, b);
    }
  }

  /** The segments are in the order of their sections. */
  lemma {:induction false} InUseIsOrdered(h: seq<Section>, n: nat, x: nat, y: nat, b: nat, c: nat)
    requires InReach(h) && n <= |h| && x < y < |InUse(h, n)|
    requires b in InUse(h, n)[x].bitmap && c in InUse(h, n)[y].bitmap
    ensures b < c
  {
    hide SegmentOf, InReach;
    var u := InUse(h, n - 1);
    InUseAreSections(h, n - 1);
    if y < |u| {
      InUseIsOrdered(h, n - 1, x, y, b, c);
    } else {
      assert FromSection(h, n - 1, u[x]);
      var d: nat :| d < n - 1 && 0 < h[d].size && u[x] == SegmentOf(h, d);
      OneBit(h, d);
      OneBit(h, n - 1);
    }
  }

  lemma OneBit(h: seq<Section>, b: nat)
    requires InReach(h) && b < |h| && 0 < h[b].size
    ensures SegmentOf(h, b).bitmap == {b}
  {}

  /** What conversion gives for every header. */
  ghost predicate Separated(h: seq<Section>, segs: seq<DolSegment>) {
    && Tidy(segs) && ApartUpTo(segs, |segs|) && OwnsSections(h, segs, |h|)
    && forall a :: Covered(segs, a) ==> InPages(h, |h|, a)
  }

  lemma FixedIsSeparated(h: seq<Section>, s: seq<DolSegment>, t: seq<DolSegment>)
    requires LoadedUpTo(h, s, |h|) && Tidy(t) && ApartUpTo(t, |t|) && SameSections(s, t) && NoMore(s, t)
    ensures Separated(h, t)
    ensures SameMemory(s, t) && AllHold(h, t) ==> Converted(h, t)
  {
    hide Covered, InPages, Owned, Tidy, AllHold, ApartUpTo;
  }

  /** The conversion at the start of dol_ppc_load. */
  method Convert(h: seq<Section>) returns (seg: array<DolSegment>)
    requires |h| == DOL_MAX_SECT && InReach(h)
    ensures fresh(seg) && seg.Length == DOL_MAX_SECT && Separated(h, seg[..])
    ensures NearSections(h) ==> Converted(h, seg[..])
  {
    hide Tidy, Near, NearSections, SameMemory, SameSections, NoMore, AllHold, ApartUpTo, InReach, CoversPages,
         OwnsSections;
    seg := new DolSegment[DOL_MAX_SECT](_ => NONE);
    var n := LoadSegments(seg, h);
    ghost var s := seg[..];
    if NearSections(h) { LoadedIsNear(h, s); }
    FixOverlaps(seg);
    FixedIsSeparated(h, s, seg[..]);
  }

  /** A section that covers an address of a converted segment belongs to that segment. */
  lemma CoveringSectionIsOwned(h: seq<Section>, segs: seq<DolSegment>, k: nat, b: nat, a: int)
    requires Converted(h, segs) && k < |segs| && segs[k].Has(a) && b < |h| && h[b].Has(a)
    ensures b in segs[k].bitmap
  {
    assert Owned(segs, b);
    var l :| 0 <= l < |segs| && b in segs[l].bitmap;
    assert Holds(h, segs[l]);
    assert segs[l].Has(a);
    if k != l {
      assert segs[k].Overlaps(segs[l]) && segs[l].Overlaps(segs[k]);
      assert false;
    }
  }

  /** Of all sections of the header that cover an address of a segment, the last is the last of the segment's own. */
  lemma LastOfHeader(h: seq<Section>, segs: seq<DolSegment>, k: nat, b: nat, a: int)
    requires Converted(h, segs) && k < |segs| && segs[k].Has(a)
    requires InHeader(h, AllSections(h)) && InHeader(h, segs[k].bitmap)
    ensures LastAt(h, AllSections(h), b, a) <==> LastAt(h, segs[k].bitmap, b, a)
  {
    forall j: nat | j < |h| && h[j].Has(a) ensures j in segs[k].bitmap {
      CoveringSectionIsOwned(h, segs, k, j, a);
    }
  }

  function AllSections(h: seq<Section>): set<nat> {
    set b: nat | b < |h| && 0 < h[b].size
  }

  /** Section j is copied before section k: lower addresses first, and lower indices on a tie. */
  predicate Before(h: seq<Section>, j: nat, k: nat)
    requires j < |h| && k < |h|
  {
    h[j].address < h[k].address || (h[j].address == h[k].address && j < k)
  }

  predicate InHeader(h: seq<Section>, bits: set<nat>) {
    forall b :: b in bits ==> b < |h|
  }

  /** Of the sections in `bits` that cover address a, section k is the last in copying order. */
  ghost predicate LastAt(h: seq<Section>, bits: set<nat>, k: nat, a: int)
    requires InHeader(h, bits)
  {
    && k in bits && h[k].Has(a)
    && forall j :: j in bits && h[j].Has(a) && j != k ==>
         h[j].address < h[k].address || (h[j].address == h[k].address && j < k)
  }

  /** The inner search of the copy loop: the first section, in copying order, that is still to do. */
  method Lowest(h: seq<Section>, bits: set<nat>, done: set<nat>) returns (j: int)
    requires InHeader(h, bits) && done < bits
    requires forall b :: b in bits ==> h[b].address < 0xffff_ffff
    ensures j in bits - done
    ensures forall k :: k in bits - done && k != j ==> Before(h, j, k)
  {
    var lowest: uint32 := 0xffff_ffff;
    j := -1;
    for k := 0 to |h|
      invariant j == -1 ==> lowest == 0xffff_ffff && forall b :: b in bits - done ==> k <= b
      invariant j != -1 ==> j in bits - done && j < k && lowest == h[j].address
      invariant j != -1 ==> forall b :: b in bits - done && b < k && b != j ==> Before(h, j, b)
    {
      if k in done || k !in bits {
        continue;
      }
      if h[k].address < lowest {
        lowest := h[k].address;
        j := k;
      }
    }
    assert !(bits <= done);
    ghost var b :| b in bits && b !in done;
    assert b in bits - done;
  }

  /** Every byte at an address covered by `done` holds the file's byte of the last section there. */
  ghost predicate Filled(s: DolSegment, h: seq<Section>, file: seq<byte>, done: set<nat>, buf: seq<byte>)
    requires InHeader(h, done)
  {
    forall k: nat, a :: LastAt(h, done, k, a) ==>
      && 0 <= a - s.start < |buf| && h[k].offset + (a - h[k].address) < |file|
      && buf[a - s.start] == file[h[k].offset + (a - h[k].address)]
  }

  ghost predicate Untouched(s: DolSegment, h: seq<Section>, done: set<nat>, was: seq<byte>, buf: seq<byte>)
    requires InHeader(h, done)
  {
    |buf| == |was| && forall o :: 0 <= o < |buf| && buf[o] != was[o] ==> exists b :: b in done && h[b].Has(s.start + o)
  }

  /** The section's bytes are inside the file. */
  predicate InFile(h: seq<Section>, bits: set<nat>, file: seq<byte>)
    requires InHeader(h, bits)
  {
    forall b :: b in bits ==> h[b].offset + h[b].size <= |file|
  }

  /** The section-copy loop of dol_ppc_load for one segment. */
  method CopySections(s: DolSegment, h: seq<Section>, file: seq<byte>, buf: array<byte>)
    requires SegmentOk(h, s) && InHeader(h, s.bitmap) && InFile(h, s.bitmap, file) && buf.Length == s.size
    modifies buf
    ensures Filled(s, h, file, s.bitmap, buf[..]) && Untouched(s, h, s.bitmap, old(buf[..]), buf[..])
  {
    var done: set<nat> := {};
    while done != s.bitmap
      invariant done <= s.bitmap
      invariant forall d, k :: d in done && k in s.bitmap - done ==> Before(h, d, k)
      invariant Filled(s, h, file, done, buf[..]) && Untouched(s, h, done, old(buf[..]), buf[..])
      decreases s.bitmap - done
    {
      var j := Lowest(h, s.bitmap, done);
      ghost var b := buf[..];
      Memcpy(buf, h[j].address - s.start, file[h[j].offset..h[j].offset + h[j].size]);
      CopyOne(s, h, file, done, j, b, buf[..]);
      UntouchedStill(s, h, done, j, old(buf[..]), b, buf[..]);
      done := done + {j};
    }
  }

  /** A section copied after all others in `done` is the last one wherever it lies. */
  lemma CopyOne(s: DolSegment, h: seq<Section>, file: seq<byte>, done: set<nat>, j: nat, b: seq<byte>, c: seq<byte>)
    requires InHeader(h, done) && j < |h| && j !in done && Filled(s, h, file, done, b)
    requires forall d :: d in done ==> Before(h, d, j)
    requires s.start <= h[j].address && h[j].End() - s.start <= |b| && h[j].offset + h[j].size <= |file|
    requires c == Spliced(b, h[j].address - s.start, file[h[j].offset..h[j].offset + h[j].size])
    ensures Filled(s, h, file, done + {j}, c)
  {
    forall k: nat, a | LastAt(h, done + {j}, k, a)
      ensures 0 <= a - s.start < |c| && h[k].offset + (a - h[k].address) < |file|
      ensures c[a - s.start] == file[h[k].offset + (a - h[k].address)]
    {
      if k != j {
        assert !h[j].Has(a) && LastAt(h, done, k, a);
      }
    }
  }

  lemma UntouchedStill(s: DolSegment, h: seq<Section>, done: set<nat>, j: nat, was: seq<byte>, b: seq<byte>,
                       c: seq<byte>)
    requires InHeader(h, done) && j < |h| && Untouched(s, h, done, was, b) && |b| == |c|
    requires forall o :: 0 <= o < |c| && c[o] != b[o] ==> h[j].Has(s.start + o)
    ensures Untouched(s, h, done + {j}, was, c)
  {}
}
