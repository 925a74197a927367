/** Physical memory as the loader sees it: RAM ranges, the segment table and the free gaps between them. */
module Memory {
  import opened Bits

  datatype RangeKind = RAM | RESERVED | ACPI | ACPI_NVS

  /** Both bounds belong to the range. */
  datatype MemoryRange = MemoryRange(start: ulong, end: ulong, kind: RangeKind)

  datatype Segment = Segment(buf: array<byte>, bufsz: ulong, mem: ulong, memsz: ulong) {
    function End(): int { mem + memsz }
    predicate Has(a: int) { mem <= a < End() }
  }

  /** Both bounds belong to the gap. */
  datatype Gap = Gap(start: ulong, end: ulong)

  type page = x: ulong | IsPow2(x) && 2 <= x witness 2

  datatype Machine = Machine(ranges: seq<MemoryRange>, pagesize: page, memMin: ulong, memMax: ulong) {

    /** RAM ranges are sorted, strictly separated and end at least a page below the top of the address space. */
    ghost predicate Ok() {
      && (forall i :: 0 <= i < |ranges| && ranges[i].kind.RAM? ==>
            ranges[i].start <= ranges[i].end && ranges[i].end + pagesize <= ULONG_MAX)
      && (forall i, k :: 0 <= i < k < |ranges| && ranges[i].kind.RAM? && ranges[k].kind.RAM? ==>
            ranges[i].end < ranges[k].start)
    }

    /** Addresses a..b (b included) lie inside RAM range i. */
    ghost predicate Inside(i: nat, a: int, b: int) {
      i < |ranges| && ranges[i].kind.RAM? && ranges[i].start <= a <= b <= ranges[i].end
    }

    /** What valid_memory_range decides: a..b is one run of RAM within the configured limits. */
    ghost predicate Usable(a: int, b: int) {
      memMin <= a <= b <= memMax && exists i :: Inside(i, a, b)
    }
  }

  /** A table entry the loader may hand to the kernel. */
  ghost predicate Placed(m: Machine, s: Segment) {
    && 0 < s.memsz && s.bufsz <= s.memsz
    && s.mem % m.pagesize == 0 && s.memsz % m.pagesize == 0
    && m.Usable(s.mem, s.End() - 1)
  }

  ghost predicate AllPlaced(m: Machine, segs: seq<Segment>) {
    forall l :: 0 <= l < |segs| ==> Placed(m, segs[l])
  }

  predicate Apart(s: Segment, t: Segment) {
    s.End() <= t.mem || t.End() <= s.mem
  }

  predicate Disjoint(segs: seq<Segment>) {
    forall k, l :: 0 <= k < l < |segs| ==> Apart(segs[k], segs[l])
  }

  /** Sorted by address and disjoint. */
  predicate Ordered(segs: seq<Segment>) {
    forall k, l :: 0 <= k < l < |segs| ==> segs[k].End() <= segs[l].mem
  }

  /** No segment reaches the top of the address space. */
  predicate Fit(segs: seq<Segment>) {
    forall l :: 0 <= l < |segs| ==> segs[l].End() <= ULONG_MAX
  }

  predicate Covers(gaps: seq<Gap>, a: int) {
    exists g :: g in gaps && g.start <= a <= g.end
  }

  predicate InSegment(segs: seq<Segment>, j: nat, a: int) {
    exists l :: j <= l < |segs| && segs[l].Has(a)
  }

  ghost predicate InRam(m: Machine, i: nat, a: int) {
    exists k: nat :: i <= k && m.Inside(k, a, a)
  }

  /** The merge step of locate_hole for one RAM range: the segments from j on that start at or before mend
      cut the stretch mstart..mend. */
  function Fill(mstart: ulong, mend: ulong, segs: seq<Segment>, j: nat): seq<Gap>
    requires j <= |segs|
    requires Fit(segs)
    decreases |segs| - j
  {
    if j < |segs| && segs[j].mem <= mend then
      (if mstart < segs[j].mem then [Gap(mstart, segs[j].mem - 1)] else [])
      + Fill(segs[j].End(), mend, segs, j + 1)
    else if mstart <= mend then [Gap(mstart, mend)]
    else []
  }

  /** The first segment from j on that starts beyond mend. */
  function Next(mend: ulong, segs: seq<Segment>, j: nat): (r: nat)
    requires j <= |segs|
    ensures j <= r <= |segs|
    ensures forall l :: j <= l < r ==> segs[l].mem <= mend
    ensures r < |segs| ==> mend < segs[r].mem
    decreases |segs| - j
  {
    if j < |segs| && segs[j].mem <= mend then Next(mend, segs, j + 1) else j
  }

  /** The gaps found from range i and segment j on. */
  function Gaps(m: Machine, segs: seq<Segment>, i: nat, j: nat): seq<Gap>
    requires i <= |m.ranges| && j <= |segs|
    requires Fit(segs)
    decreases |m.ranges| - i
  {
    if i == |m.ranges| then []
    else if !m.ranges[i].kind.RAM? then Gaps(m, segs, i + 1, j)
    else Fill(m.ranges[i].start, m.ranges[i].end, segs, j)
         + Gaps(m, segs, i + 1, Next(m.ranges[i].end, segs, j))
  }

  lemma PlacedFits(m: Machine, segs: seq<Segment>)
    requires m.Ok() && AllPlaced(m, segs)
    ensures Fit(segs)
  {}

  lemma CoversConcat(g: seq<Gap>, h: seq<Gap>, a: int)
    ensures Covers(g + h, a) <==> Covers(g, a) || Covers(h, a)
  {}

  /** Segments from j on start at or after mstart, and those starting by mend also end by mend. */
  ghost predicate Cuts(mstart: int, mend: int, segs: seq<Segment>, j: nat) {
    && Ordered(segs)
    && Fit(segs)
    && (forall l :: 0 <= l < |segs| ==> 0 < segs[l].memsz)
    && (forall l :: j <= l < |segs| ==> mstart <= segs[l].mem)
    && (forall l :: j <= l < |segs| && segs[l].mem <= mend ==> segs[l].End() <= mend + 1)
  }

  lemma {:induction false} FillExact(mstart: ulong, mend: ulong, segs: seq<Segment>, j: nat, a: int)
    requires j <= |segs| && Cuts(mstart, mend, segs, j)
    ensures Covers(Fill(mstart, mend, segs, j), a) <==> mstart <= a <= mend && !InSegment(segs, j, a)
    decreases |segs| - j
  {
    if j < |segs| && segs[j].mem <= mend {
      var s := segs[j];
      var head := if mstart < s.mem then [Gap(mstart, s.mem - 1)] else [];
      FillExact(s.End(), mend, segs, j + 1, a);
      CoversConcat(head, Fill(s.End(), mend, segs, j + 1), a);
      assert Covers(head, a) <==> mstart <= a < s.mem by {
        if mstart <= a < s.mem { assert head[0] in head; }
      }
      assert InSegment(segs, j, a) <==> s.Has(a) || InSegment(segs, j + 1, a);
    } else if mstart <= mend {
      assert Gap(mstart, mend) in [Gap(mstart, mend)];
    }
  }

  /** A gap ends where its stretch ends or right below a segment. */
  ghost predicate Stops(g: Gap, mend: int, segs: seq<Segment>, j: nat) {
    g.end == mend || exists l :: j <= l < |segs| && segs[l].mem == g.end + 1
  }

  predicate Ascending(gaps: seq<Gap>) {
    && (forall x :: 0 <= x < |gaps| ==> gaps[x].start <= gaps[x].end)
    && (forall x, y :: 0 <= x < y < |gaps| ==> gaps[x].end < gaps[y].start)
  }

  predicate Within(gaps: seq<Gap>, lo: int, hi: int) {
    forall x :: 0 <= x < |gaps| ==> lo <= gaps[x].start && gaps[x].end <= hi
  }

  lemma {:induction false} FillAscends(mstart: ulong, mend: ulong, segs: seq<Segment>, j: nat)
    requires j <= |segs| && Cuts(mstart, mend, segs, j)
    ensures Ascending(Fill(mstart, mend, segs, j)) && Within(Fill(mstart, mend, segs, j), mstart, mend)
    decreases |segs| - j
  {
    assert Fit(segs);
    hide Cuts, Fit;
    if j < |segs| && segs[j].mem <= mend {
      var s := segs[j];
      CutsNext(mstart, mend, segs, j);
      FillAscends(s.End(), mend, segs, j + 1);
      var head := if mstart < s.mem then [Gap(mstart, s.mem - 1)] else [];
      AscendingConcat(head, Fill(s.End(), mend, segs, j + 1), mstart, s.mem - 1, s.End(), mend);
    }
  }

  lemma {:induction false} FillCount(mstart: ulong, mend: ulong, segs: seq<Segment>, j: nat)
    requires j <= |segs| && Fit(segs)
    ensures |Fill(mstart, mend, segs, j)| <= Next(mend, segs, j) - j + 1
    decreases |segs| - j
  {
    if j < |segs| && segs[j].mem <= mend {
      FillCount(segs[j].End(), mend, segs, j + 1);
    }
  }

  lemma CutsNext(mstart: ulong, mend: ulong, segs: seq<Segment>, j: nat)
    requires j < |segs| && Cuts(mstart, mend, segs, j) && segs[j].mem <= mend
    ensures Cuts(segs[j].End(), mend, segs, j + 1)
    ensures mstart <= segs[j].mem < segs[j].End() <= mend + 1 && segs[j].End() <= ULONG_MAX
  {}

  lemma AscendingConcat(f: seq<Gap>, r: seq<Gap>, flo: int, fhi: int, rlo: int, rhi: int)
    requires Ascending(f) && Within(f, flo, fhi)
    requires Ascending(r) && Within(r, rlo, rhi)
    requires fhi < rlo && flo <= rlo && fhi <= rhi
    ensures Ascending(f + r) && Within(f + r, flo, rhi)
  {}

  lemma {:induction false} FillStops(mstart: ulong, mend: ulong, segs: seq<Segment>, j: nat, g: Gap)
    requires j <= |segs| && Cuts(mstart, mend, segs, j)
    requires g in Fill(mstart, mend, segs, j)
    ensures Stops(g, mend, segs, j)
    decreases |segs| - j
  {
    if j < |segs| && segs[j].mem <= mend && g in Fill(segs[j].End(), mend, segs, j + 1) {
      FillStops(segs[j].End(), mend, segs, j + 1, g);
    }
  }

  /** Every segment from j on lies above the RAM ranges before i. */
  ghost predicate Beyond(m: Machine, segs: seq<Segment>, i: nat, j: nat) {
    forall k, l :: 0 <= k < i && k < |m.ranges| && m.ranges[k].kind.RAM? && j <= l < |segs| ==>
      m.ranges[k].end < segs[l].mem
  }

  /** A segment that starts by the end of range i, and lies above all earlier ranges, is inside range i. */
  lemma SegmentInRange(m: Machine, segs: seq<Segment>, i: nat, j: nat, l: nat)
    requires m.Ok() && AllPlaced(m, segs) && j <= l < |segs|
    requires i < |m.ranges| && m.ranges[i].kind.RAM? && Beyond(m, segs, i, j)
    ensures 0 < segs[l].memsz && m.ranges[i].start <= segs[l].mem
    ensures segs[l].mem <= m.ranges[i].end ==> segs[l].End() <= m.ranges[i].end + 1
  {}

  lemma {:induction false} RangeCuts(m: Machine, segs: seq<Segment>, i: nat, j: nat)
    requires m.Ok() && AllPlaced(m, segs) && Ordered(segs)
    requires i < |m.ranges| && m.ranges[i].kind.RAM? && j <= |segs| && Beyond(m, segs, i, j)
    ensures Cuts(m.ranges[i].start, m.ranges[i].end, segs, j)
    ensures Beyond(m, segs, i + 1, Next(m.ranges[i].end, segs, j))
  {
    PlacedFits(m, segs);
    NextGoesBeyond(m, segs, i, j);
    hide Placed, Next, Beyond;
    forall l | j <= l < |segs|
      ensures m.ranges[i].start <= segs[l].mem
      ensures segs[l].mem <= m.ranges[i].end ==> segs[l].End() <= m.ranges[i].end + 1
    {
      SegmentInRange(m, segs, i, j, l);
    }
    forall l | 0 <= l < |segs| ensures 0 < segs[l].memsz { PlacedIsSome(m, segs[l]); }
  }

  lemma PlacedIsSome(m: Machine, s: Segment)
    requires Placed(m, s)
    ensures 0 < s.memsz
  {}

  lemma NextGoesBeyond(m: Machine, segs: seq<Segment>, i: nat, j: nat)
    requires Ordered(segs) && i < |m.ranges| && m.ranges[i].kind.RAM? && j <= |segs| && Beyond(m, segs, i, j)
    requires forall l :: 0 <= l < |segs| ==> segs[l].mem <= segs[l].End()
    ensures Beyond(m, segs, i + 1, Next(m.ranges[i].end, segs, j))
  {}

  lemma BeyondSkip(m: Machine, segs: seq<Segment>, i: nat, j: nat)
    requires i < |m.ranges| && !m.ranges[i].kind.RAM? && Beyond(m, segs, i, j)
    ensures Beyond(m, segs, i + 1, j)
  {}

  /** Each gap lies in one RAM range and cannot be extended upwards inside it. */
  ghost predicate GapShape(m: Machine, segs: seq<Segment>, i: nat, j: nat, g: Gap) {
    exists k: nat :: i <= k && m.Inside(k, g.start, g.end) && Stops(g, m.ranges[k].end, segs, j)
  }

  lemma {:induction false} GapsShape(m: Machine, segs: seq<Segment>, i: nat, j: nat)
    requires m.Ok() && AllPlaced(m, segs) && Ordered(segs)
    requires i <= |m.ranges| && j <= |segs| && Beyond(m, segs, i, j)
    requires Fit(segs)
    ensures var r := Gaps(m, segs, i, j);
            && Ascending(r)
            && |r| <= |m.ranges| - i + |segs| - j
            && forall x :: 0 <= x < |r| ==> GapShape(m, segs, i, j, r[x])
    decreases |m.ranges| - i
  {
    if i == |m.ranges| {
    } else if !m.ranges[i].kind.RAM? {
      BeyondSkip(m, segs, i, j);
      GapsShape(m, segs, i + 1, j);
    } else {
      var mr := m.ranges[i];
      var n := Next(mr.end, segs, j);
      RangeCuts(m, segs, i, j);
      FillAscends(mr.start, mr.end, segs, j);
      FillCount(mr.start, mr.end, segs, j);
      GapsShape(m, segs, i + 1, n);
      var f, r := Fill(mr.start, mr.end, segs, j), Gaps(m, segs, i + 1, n);
      forall x | 0 <= x < |f| ensures GapShape(m, segs, i, j, f[x]) {
        FillStops(mr.start, mr.end, segs, j, f[x]);
        assert m.Inside(i, f[x].start, f[x].end);
      }
      forall x | 0 <= x < |r| ensures GapShape(m, segs, i, j, r[x]) && mr.end < r[x].start {
        assert GapShape(m, segs, i + 1, n, r[x]);
      }
      AscendingConcat(f, r, mr.start, mr.end, mr.end + 1, ULONG_MAX);
    }
  }

  /** Gap merge exactness from range i and segment j on. */
  lemma {:induction false} GapsExactFrom(m: Machine, segs: seq<Segment>, i: nat, j: nat, a: int)
    requires m.Ok() && AllPlaced(m, segs) && Ordered(segs)
    requires i <= |m.ranges| && j <= |segs| && Beyond(m, segs, i, j)
    requires Fit(segs)
    ensures Covers(Gaps(m, segs, i, j), a) <==> InRam(m, i, a) && !InSegment(segs, j, a)
    decreases |m.ranges| - i
  {
    if i == |m.ranges| {
    } else if !m.ranges[i].kind.RAM? {
      BeyondSkip(m, segs, i, j);
      GapsExactFrom(m, segs, i + 1, j, a);
    } else {
      var mr := m.ranges[i];
      var n := Next(mr.end, segs, j);
      RangeCuts(m, segs, i, j);
      FillExact(mr.start, mr.end, segs, j, a);
      GapsExactFrom(m, segs, i + 1, n, a);
      CoversConcat(Fill(mr.start, mr.end, segs, j), Gaps(m, segs, i + 1, n), a);
      assert InRam(m, i, a) <==> m.Inside(i, a, a) || InRam(m, i + 1, a);
      if InRam(m, i + 1, a) && InSegment(segs, j, a) {
        var l :| j <= l < |segs| && segs[l].Has(a);
        assert n <= l;
      }
    }
  }

  /** An address lies in a computed gap exactly when it is RAM and belongs to no segment. */
  lemma GapsExact(m: Machine, segs: seq<Segment>, a: int)
    requires m.Ok() && AllPlaced(m, segs) && Ordered(segs)
    requires Fit(segs)
    ensures Covers(Gaps(m, segs, 0, 0), a) <==> InRam(m, 0, a) && !InSegment(segs, 0, a)
  {
    GapsExactFrom(m, segs, 0, 0, a);
  }

  /** Segment l of the first n leaves room in mstart..mend and towards the next one. */
  predicate LooseAt(mstart: int, mend: int, segs: seq<Segment>, l: nat, n: nat)
    requires l < n <= |segs|
  {
    mstart < segs[l].mem && segs[l].End() <= mend && (l + 1 < n ==> segs[l].End() < segs[l + 1].mem)
  }

  predicate LooseIn(mstart: int, mend: int, segs: seq<Segment>, j: nat, n: nat)
    requires j <= n <= |segs|
  {
    mstart <= mend && forall l :: j <= l < n ==> LooseAt(mstart, mend, segs, l, n)
  }

  /** One range yields one gap more than it has segments exactly when they are loose. */
  lemma {:induction false} FillCountExact(mstart: ulong, mend: ulong, segs: seq<Segment>, j: nat)
    requires j <= |segs| && Cuts(mstart, mend, segs, j)
    ensures |Fill(mstart, mend, segs, j)| == Next(mend, segs, j) - j + 1
      <==> LooseIn(mstart, mend, segs, j, Next(mend, segs, j))
    decreases |segs| - j
  {
    hide Cuts, LooseIn, Ordered;
    LooseNone(mstart, mend, segs, j);
    if j < |segs| && segs[j].mem <= mend {
      var n := Next(mend, segs, j);
      CutsNext(mstart, mend, segs, j);
      CutsOrdered(mstart, mend, segs, j);
      FillCount(segs[j].End(), mend, segs, j + 1);
      FillCountExact(segs[j].End(), mend, segs, j + 1);
      LooseStep(mstart, mend, segs, j, n);
    }
  }

  lemma CutsOrdered(mstart: int, mend: int, segs: seq<Segment>, j: nat)
    requires Cuts(mstart, mend, segs, j)
    ensures Ordered(segs) && forall l :: 0 <= l < |segs| ==> 0 < segs[l].memsz
  {}

  lemma LooseNone(mstart: int, mend: int, segs: seq<Segment>, j: nat)
    requires j <= |segs|
    ensures LooseIn(mstart, mend, segs, j, j) <==> mstart <= mend
  {}

  lemma LooseStep(mstart: int, mend: int, segs: seq<Segment>, j: nat, n: nat)
    requires j < n <= |segs| && Ordered(segs) && forall l :: 0 <= l < |segs| ==> 0 < segs[l].memsz
    ensures LooseIn(mstart, mend, segs, j, n)
      <==> mstart < segs[j].mem && LooseIn(segs[j].End(), mend, segs, j + 1, n)
  {
    var e := segs[j].End();
    if LooseIn(mstart, mend, segs, j, n) {
      assert LooseAt(mstart, mend, segs, j, n);
      forall l | j + 1 <= l < n
        ensures LooseAt(e, mend, segs, l, n)
      {
        assert LooseAt(mstart, mend, segs, l, n);
        if l > j + 1 { assert segs[j + 1].End() <= segs[l].mem; }
      }
    }
    if mstart < segs[j].mem && LooseIn(e, mend, segs, j + 1, n) {
      forall l | j <= l < n
        ensures LooseAt(mstart, mend, segs, l, n)
      {
        assert segs[j].mem <= e <= mend;
        assert j < l ==> LooseAt(e, mend, segs, l, n);
        assert j + 1 < n ==> LooseAt(e, mend, segs, j + 1, n);
      }
    }
  }

  /** The segment starts or ends where its RAM range does. */
  ghost predicate AtEdge(m: Machine, s: Segment) {
    exists i: nat :: m.Inside(i, s.mem, s.End() - 1) && (m.ranges[i].start == s.mem || m.ranges[i].end == s.End() - 1)
  }

  /** Segment l touches the edge of its range or the next segment. */
  ghost predicate Touches(m: Machine, segs: seq<Segment>, l: nat)
    requires l < |segs|
  {
    AtEdge(m, segs[l]) || (l + 1 < |segs| && segs[l].End() == segs[l + 1].mem)
  }

  ghost predicate NoneTouches(m: Machine, segs: seq<Segment>, j: nat, n: nat)
    requires j <= n <= |segs|
  {
    forall l :: j <= l < n ==> !Touches(m, segs, l)
  }

  predicate AllRam(m: Machine, i: nat) {
    forall k :: i <= k < |m.ranges| ==> m.ranges[k].kind.RAM?
  }

  /** In range i, the segments from j on are loose exactly when none of them touches anything. */
  lemma RangeIsLoose(m: Machine, segs: seq<Segment>, i: nat, j: nat, n: nat)
    requires m.Ok() && i < |m.ranges| && m.ranges[i].kind.RAM? && j <= n <= |segs|
    requires Cuts(m.ranges[i].start, m.ranges[i].end, segs, j)
    requires forall l :: j <= l < n ==> segs[l].mem <= m.ranges[i].end
    requires n < |segs| ==> m.ranges[i].end < segs[n].mem
    ensures LooseIn(m.ranges[i].start, m.ranges[i].end, segs, j, n) <==> NoneTouches(m, segs, j, n)
  {
    forall l | j <= l < n
      ensures LooseAt(m.ranges[i].start, m.ranges[i].end, segs, l, n) <==> !Touches(m, segs, l)
    {
      EdgeOf(m, segs[l], i);
      assert l + 1 < |segs| ==> segs[l].End() <= segs[l + 1].mem;
    }
    assert m.ranges[i].start <= m.ranges[i].end;
    hide Touches, LooseAt, Machine.Ok;
  }

  lemma EdgeOf(m: Machine, s: Segment, i: nat)
    requires m.Ok() && 0 < s.memsz && m.Inside(i, s.mem, s.End() - 1)
    ensures AtEdge(m, s) <==> m.ranges[i].start == s.mem || m.ranges[i].end == s.End() - 1
  {}

  /** The bound on the number of gaps is attained exactly when every range is RAM and no segment touches anything. */
  lemma {:induction false} GapsCountExact(m: Machine, segs: seq<Segment>, i: nat, j: nat)
    requires m.Ok() && AllPlaced(m, segs) && Ordered(segs) && Fit(segs)
    requires i <= |m.ranges| && j <= |segs| && Beyond(m, segs, i, j)
    ensures |Gaps(m, segs, i, j)| == |m.ranges| - i + |segs| - j <==> AllRam(m, i) && NoneTouches(m, segs, j, |segs|)
    decreases |m.ranges| - i
  {
    hide Fill, Touches, AllPlaced, Ordered, Beyond, GapShape, Ascending, Cuts, LooseIn, Machine.Ok, Next;
    if i == |m.ranges| {
      NothingBeyond(m, segs, j);
    } else if !m.ranges[i].kind.RAM? {
      BeyondSkip(m, segs, i, j);
      GapsShape(m, segs, i + 1, j);
    } else {
      var mr := m.ranges[i];
      var n := Next(mr.end, segs, j);
      RangeCuts(m, segs, i, j);
      FillCount(mr.start, mr.end, segs, j);
      FillCountExact(mr.start, mr.end, segs, j);
      RangeIsLoose(m, segs, i, j, n);
      GapsShape(m, segs, i + 1, n);
      GapsCountExact(m, segs, i + 1, n);
    }
  }

  /** Above all ranges there is no segment left. */
  lemma NothingBeyond(m: Machine, segs: seq<Segment>, j: nat)
    requires AllPlaced(m, segs) && j <= |segs|
    ensures Beyond(m, segs, |m.ranges|, j) ==> j == |segs|
  {
    if j < |segs| {
      assert Placed(m, segs[j]);
      var k: nat :| m.Inside(k, segs[j].mem, segs[j].End() - 1);
      assert m.ranges[k].end >= segs[j].mem;
    }
  }

  /** The gaps fit the memory_ranges + nr_segments - 1 entries locate_hole reserves if and only if some range is not
      RAM, or some segment touches the edge of its range or its neighbour. */
  lemma ReservedGapsSuffice(m: Machine, segs: seq<Segment>)
    requires m.Ok() && AllPlaced(m, segs) && Ordered(segs) && Fit(segs)
    ensures |Gaps(m, segs, 0, 0)| <= |m.ranges| + |segs| - 1
      <==> !AllRam(m, 0) || !NoneTouches(m, segs, 0, |segs|)
  {
    GapsShape(m, segs, 0, 0);
    GapsCountExact(m, segs, 0, 0);
  }

  /** The bound on the number of gaps is attained, with one gap more than locate_hole reserves room for:
      one page placed inside one range leaves memory on both sides. */
  lemma GapBoundIsTight(buf: array<byte>)
    ensures var m := Machine([MemoryRange(0, 0x2fff, RAM)], 16, 0, ULONG_MAX);
            var segs := [Segment(buf, 0, 0x1000, 0x1000)];
            && m.Ok() && AllPlaced(m, segs) && Ordered(segs) && Fit(segs)
            && Gaps(m, segs, 0, 0) == [Gap(0, 0xfff), Gap(0x2000, 0x2fff)]
            && |Gaps(m, segs, 0, 0)| == |m.ranges| + |segs|
  {
    var m := Machine([MemoryRange(0, 0x2fff, RAM)], 16, 0, ULONG_MAX);
    var segs := [Segment(buf, 0, 0x1000, 0x1000)];
    assert m.Inside(0, 0x1000, 0x1fff);
    assert Next(0x2fff, segs, 0) == 1;
    assert Gaps(m, segs, 1, 1) == [];
    assert Fill(0x2000, 0x2fff, segs, 1) == [Gap(0x2000, 0x2fff)];
  }
}
