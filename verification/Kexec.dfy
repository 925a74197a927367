/** The segment table of kexec.c and the operations that grow, sort and check it. */
module Kexec {
  import opened Bits
  import opened Memory
  import opened Holes

  /** `die` ends the program. */
  datatype Outcome<+T> = Ok(value: T) | Die

  function Swapped(s: seq<Segment>, i: nat, k: nat): (r: seq<Segment>)
    requires i < |s| && k < |s|
    ensures |r| == |s|
  {
    s[i := s[k]][k := s[i]]
  }

  lemma SwapKeeps(s: seq<Segment>, i: nat, k: nat)
    requires i < |s| && k < |s|
    ensures multiset(Swapped(s, i, k)) == multiset(s)
    ensures Disjoint(s) <==> Disjoint(Swapped(s, i, k))
  {
    var t := Swapped(s, i, k);
    if Disjoint(s) { SwapKeepsDisjoint(s, i, k); }
    if Disjoint(t) {
      SwapKeepsDisjoint(t, i, k);
      assert Swapped(t, i, k) == s;
    }
  }

  lemma SwapKeepsDisjoint(s: seq<Segment>, i: nat, k: nat)
    requires i < |s| && k < |s| && Disjoint(s)
    ensures Disjoint(Swapped(s, i, k))
  {}

  predicate Sorted(s: seq<Segment>) {
    forall k, l :: 0 <= k < l < |s| ==> s[k].mem <= s[l].mem
  }

  /** The first i entries are the least ones, in order. */
  predicate SortedUpTo(s: seq<Segment>, i: nat) {
    forall k, l :: 0 <= k < l < |s| && k < i ==> s[k].mem <= s[l].mem
  }

  lemma SelectLeast(s: seq<Segment>, i: nat, k: nat)
    requires SortedUpTo(s, i) && i <= k < |s|
    requires forall l :: i <= l < |s| ==> s[k].mem <= s[l].mem
    ensures SortedUpTo(Swapped(s, i, k), i + 1)
  {}

  lemma SortedEnds(s: seq<Segment>)
    ensures SortedUpTo(s, 0) && (SortedUpTo(s, |s|) ==> Sorted(s))
  {}

  lemma SwapSame(s: seq<Segment>, i: nat)
    requires i < |s|
    ensures Swapped(s, i, i) == s
  {}

  predicate OrderedUpTo(s: seq<Segment>, i: nat)
    requires i <= |s|
  {
    forall k, l :: 0 <= k < l < i ==> s[k].End() <= s[l].mem
  }

  lemma OneMoreInOrder(s: seq<Segment>, i: nat)
    requires i < |s| && OrderedUpTo(s, i)
    requires i > 0 ==> s[i - 1].End() <= s[i].mem
    ensures OrderedUpTo(s, i + 1)
  {}

  /** Non-empty entries below the top of the address space: all that sorting and its overlap scan rely on. */
  predicate Solid(s: seq<Segment>) {
    forall l :: 0 <= l < |s| ==> 0 < s[l].memsz && s[l].End() <= ULONG_MAX
  }

  lemma SameSolid(s: seq<Segment>, t: seq<Segment>)
    requires Solid(s) && multiset(s) == multiset(t)
    ensures Solid(t)
  {
    forall l | 0 <= l < |t| ensures 0 < t[l].memsz && t[l].End() <= ULONG_MAX {
      assert t[l] in multiset(t);
      var k :| 0 <= k < |s| && s[k] == t[l];
    }
  }

  lemma PlacedIsSolid(m: Machine, s: seq<Segment>)
    requires m.Ok() && AllPlaced(m, s)
    ensures Solid(s)
  {}

  lemma SamePlaced(m: Machine, s: seq<Segment>, t: seq<Segment>)
    requires m.Ok() && AllPlaced(m, s) && multiset(s) == multiset(t)
    ensures AllPlaced(m, t)
  {
    forall l | 0 <= l < |t| ensures Placed(m, t[l]) {
      assert t[l] in multiset(t);
      var k :| 0 <= k < |s| && s[k] == t[l];
    }
  }

  lemma SortedDisjointIsOrdered(s: seq<Segment>)
    requires Sorted(s) && Solid(s)
    ensures Ordered(s) <==> Disjoint(s)
  {}

  lemma FillStep(done: seq<Gap>, mstart: ulong, mend: ulong, segs: seq<Segment>, j: nat)
    requires Fit(segs) && j < |segs| && segs[j].mem <= mend
    ensures Next(mend, segs, j) == Next(mend, segs, j + 1)
    ensures var next := Fill(segs[j].End(), mend, segs, j + 1);
            done + Fill(mstart, mend, segs, j)
            == if mstart < segs[j].mem then done + [Gap(mstart, segs[j].mem - 1)] + next else done + next
  {
    var next := Fill(segs[j].End(), mend, segs, j + 1);
    if mstart < segs[j].mem {
      assert done + ([Gap(mstart, segs[j].mem - 1)] + next) == done + [Gap(mstart, segs[j].mem - 1)] + next;
    } else {
      assert [] + next == next;
    }
  }

  lemma FillEnd(mstart: ulong, mend: ulong, segs: seq<Segment>, j: nat)
    requires Fit(segs) && j <= |segs| && (j < |segs| ==> mend < segs[j].mem)
    ensures Next(mend, segs, j) == j
    ensures Fill(mstart, mend, segs, j) == if mstart <= mend then [Gap(mstart, mend)] else []
  {}

  /** The table after add_segment appended an entry for `memsz` bytes at `base`. */
  function Entry(m: Machine, buf: array<byte>, bufsz: ulong, base: ulong, memsz: ulong): Segment
    requires WholePages(m, memsz) < ULONG_SIZE
  {
    Segment(buf, Min(bufsz, memsz), base, WholePages(m, memsz))
  }

  lemma EntryIsPlaced(m: Machine, t: seq<Segment>, buf: array<byte>, bufsz: ulong, base: ulong, memsz: ulong)
    requires m.Ok() && AllPlaced(m, t) && memsz > 0 && base % m.pagesize == 0
    ensures m.Usable(base, base + WholePages(m, memsz) - 1) ==>
              && WholePages(m, memsz) < ULONG_SIZE
              && Placed(m, Entry(m, buf, bufsz, base, memsz))
              && AllPlaced(m, t + [Entry(m, buf, bufsz, base, memsz)])
  {
    WholePagesFit(m, memsz);
    hide WholePages;
  }

  lemma {:induction false} PagesAreLeast(m: Machine, n: nat)
    ensures WholePages(m, n) % m.pagesize == 0 && n <= WholePages(m, n) < n + m.pagesize
  {
    var p := m.pagesize;
    ModIs(WholePages(m, n), p, (n + p - 1) / p, 0);
  }

  /** What a successful add_segment did to the table. */
  ghost predicate SegmentAdded(m: Machine, t: seq<Segment>, t': seq<Segment>, buf: array<byte>, bufsz: ulong,
                               base: ulong, memsz: ulong)
  {
    if memsz == 0 then t' == t
    else
      && WholePages(m, memsz) < ULONG_SIZE
      && t' == t + [Entry(m, buf, bufsz, base, memsz)]
      && Placed(m, Entry(m, buf, bufsz, base, memsz))
  }

  /** What a successful add_buffer did: it sorted a disjoint table and appended to it an entry at the best hole. */
  ghost predicate BufferAdded(m: Machine, t: seq<Segment>, t': seq<Segment>, buf: array<byte>, bufsz: ulong,
                              q: Request, base: ulong)
  {
    && Disjoint(t)
    && base % Alignment(m, q) == 0 && base + q.size + Alignment(m, q) <= ULONG_MAX
    && BestHole(m, t, q, base)
    && |t| <= |t'| && Ordered(t'[..|t|]) && multiset(t'[..|t|]) == multiset(t)
    && SegmentAdded(m, t'[..|t|], t', buf, bufsz, base, q.size)
  }

  /** There is a best hole for the request, and rounded up to whole pages it is still usable RAM. */
  ghost predicate Placeable(m: Machine, t: seq<Segment>, q: Request) {
    exists b :: BestHole(m, t, q, b) && (q.size > 0 ==> m.Usable(b, b + WholePages(m, q.size) - 1))
  }

  lemma UsableMeans(m: Machine, a: int, b: int)
    ensures m.Usable(a, b) <==>
      && a <= b && m.memMin <= a && b <= m.memMax
      && exists r :: r in m.ranges && r.kind == RAM && r.start <= a && b <= r.end
  {
    if m.Usable(a, b) {
      var i: nat :| m.Inside(i, a, b);
      assert m.ranges[i] in m.ranges;
    }
    if a <= b && exists r :: r in m.ranges && r.kind == RAM && r.start <= a && b <= r.end {
      var r :| r in m.ranges && r.kind == RAM && r.start <= a && b <= r.end;
      var i: nat :| i < |m.ranges| && m.ranges[i] == r;
      assert m.Inside(i, a, b);
    }
  }

  class KexecInfo {
    const m: Machine
    var segment: seq<Segment>

    ghost predicate Valid()
      reads this
    {
      m.Ok() && AllPlaced(m, segment)
    }

    constructor (m: Machine)
      requires m.Ok()
      ensures this.m == m && segment == [] && Valid()
    {
      this.m := m;
      segment := [];
    }

    method ValidMemoryRange(sstart: ulong, send: ulong) returns (ok: bool)
      requires m.Ok()
      ensures ok <==> m.Usable(sstart, send)
      ensures ok <==>
        && sstart <= send && m.memMin <= sstart && send <= m.memMax
        && exists r :: r in m.ranges && r.kind == RAM && r.start <= sstart && send <= r.end
    {
      UsableMeans(m, sstart, send);
      if sstart > send { return false; }
      if send > m.memMax || sstart < m.memMin { return false; }
      for i := 0 to |m.ranges|
        invariant forall k :: 0 <= k < i ==> !m.Inside(k, sstart, send)
      {
        if m.ranges[i].kind.RAM? && m.ranges[i].start <= sstart && m.ranges[i].end >= send {
          assert m.Inside(i, sstart, send);
          return true;
        }
      }
      return false;
    }

    /** The selection sort of sort_segments. */
    method Arrange()
      modifies this`segment
      ensures multiset(segment) == multiset(old(segment)) && |segment| == |old(segment)| && Sorted(segment)
      ensures Disjoint(segment) <==> Disjoint(old(segment))
    {
      hide Disjoint, SortedUpTo, Sorted, Swapped;
      SortedEnds(segment);
      var i := 0;
      while i < |segment|
        invariant i <= |segment| == |old(segment)| && SortedUpTo(segment, i)
        invariant multiset(segment) == multiset(old(segment))
        invariant Disjoint(segment) <==> Disjoint(old(segment))
      {
        var tidx := Least(i);
        SelectLeast(segment, i, tidx);
        SwapKeeps(segment, i, tidx);
        SwapSame(segment, i);
        if tidx != i {
          segment := Swapped(segment, i, tidx);
        }
        i := i + 1;
      }
      SortedEnds(segment);
    }

    method Least(i: nat) returns (tidx: nat)
      requires i < |segment|
      ensures i <= tidx < |segment|
      ensures forall l :: i <= l < |segment| ==> segment[tidx].mem <= segment[l].mem
    {
      tidx := i;
      for j := i + 1 to |segment|
        invariant i <= tidx < |segment|
        invariant forall l :: i <= l < j ==> segment[tidx].mem <= segment[l].mem
      {
        if segment[j].mem < segment[tidx].mem {
          tidx := j;
        }
      }
    }

    /** The overlap scan of sort_segments. */
    method Overlaps() returns (overlap: bool)
      requires Sorted(segment) && Solid(segment)
      ensures !overlap <==> Ordered(segment)
    {
      var end: ulong := 0;
      for i := 0 to |segment|
        invariant end == if i == 0 then 0 else segment[i - 1].End()
        invariant OrderedUpTo(segment, i)
      {
        if end > segment[i].mem {
          return true;
        }
        OneMoreInOrder(segment, i);
        end := segment[i].mem + segment[i].memsz;
      }
      return false;
    }

    method SortSegments() returns (result: int)
      requires Solid(segment)
      modifies this`segment
      ensures multiset(segment) == multiset(old(segment)) && |segment| == |old(segment)| && Sorted(segment)
      ensures result == 0 || result == -1
      ensures result == 0 <==> Disjoint(old(segment))
      ensures result == 0 <==> Ordered(segment)
    {
      Arrange();
      SameSolid(old(segment), segment);
      SortedDisjointIsOrdered(segment);
      var overlap := Overlaps();
      result := if overlap then -1 else 0;
    }

    /** The first half of locate_hole: merges the RAM ranges with the sorted table. */
    method FreeRanges() returns (range: array<Gap>, n: nat)
      requires Fit(segment) && |Gaps(m, segment, 0, 0)| <= |m.ranges| + |segment|
      ensures fresh(range)
      ensures n <= range.Length && range[..n] == Gaps(m, segment, 0, 0)
    {
      range := new Gap[|m.ranges| + |segment|];
      n := 0;
      var j: nat, i: nat := 0, 0;
      while i < |m.ranges|
        invariant i <= |m.ranges| && j <= |segment|
        invariant n <= range.Length && range[..n] + Gaps(m, segment, i, j) == Gaps(m, segment, 0, 0)
      {
        if m.ranges[i].kind.RAM? {
          ghost var done := range[..n];
          ghost var found, after := Fill(m.ranges[i].start, m.ranges[i].end, segment, j),
                                    Gaps(m, segment, i + 1, Next(m.ranges[i].end, segment, j));
          assert done + (found + after) == (done + found) + after;
          n, j := FillRange(range, n, m.ranges[i], j);
        }
        i := i + 1;
      }
    }

    /** The inner merge loop: the gaps of one RAM range. */
    method FillRange(range: array<Gap>, n: nat, mr: MemoryRange, j: nat) returns (n': nat, j': nat)
      requires Fit(segment) && j <= |segment|
      requires n + |Fill(mr.start, mr.end, segment, j)| <= range.Length
      modifies range
      ensures n' <= range.Length && range[..n'] == old(range[..n]) + Fill(mr.start, mr.end, segment, j)
      ensures j' == Next(mr.end, segment, j)
    {
      hide Fill, Next;
      var mstart: ulong, mend: ulong := mr.start, mr.end;
      n', j' := n, j;
      ghost var all := range[..n] + Fill(mstart, mend, segment, j);
      while j' < |segment| && segment[j'].mem <= mend
        invariant j' <= |segment| && Next(mend, segment, j') == Next(mend, segment, j)
        invariant n' <= range.Length && range[..n'] + Fill(mstart, mend, segment, j') == all
      {
        FillStep(range[..n'], mstart, mend, segment, j');
        var sstart: ulong := segment[j'].mem;
        if mstart < sstart {
          n' := Append(range, n', Gap(mstart, sstart - 1));
        }
        mstart := segment[j'].mem + segment[j'].memsz;
        j' := j' + 1;
      }
      FillEnd(mstart, mend, segment, j');
      if mstart <= mend {
        n' := Append(range, n', Gap(mstart, mend));
      }
    }

    static method Append(range: array<Gap>, n: nat, g: Gap) returns (n': nat)
      requires n < range.Length
      modifies range
      ensures n' == n + 1 && range[..n'] == old(range[..n]) + [g]
    {
      range[n] := g;
      n' := n + 1;
    }

    /** The body of locate_hole's second loop: what one free range makes of the base. */
    method Try(g: Gap, q: Request, base: ulong) returns (base': ulong)
      requires Bounded(m, q, g)
      ensures base' == Step(m, q, g, base)
    {
      hide AlignUp, AlignDown, Alignment, IsPow2;
      base' := base;
      var start: ulong := Max(Max(g.start, m.memMin), q.min);
      start := AlignUp(start, Alignment(m, q));
      var end: ulong := Min(Min(g.end, m.memMax), q.max);
      if start >= end || start >= m.memMax || end <= m.memMin {
        return;
      }
      if end - start >= q.size {
        if q.end > 0 {
          base' := start;
        } else {
          base' := AlignDown(end - q.size, Alignment(m, q));
        }
      }
    }

    /** The second half of locate_hole: the least, or for a negative end the greatest, base that fits. */
    method Pick(range: array<Gap>, n: nat, q: Request) returns (base: ulong)
      requires n <= range.Length && Ascending(range[..n]) && q.end != 0
      requires forall x :: 0 <= x < n ==> Bounded(m, q, range[x])
      ensures Picked(m, q, range[..n], base)
    {
      hide Picked, GapHole, Step;
      ghost var all := range[..n];
      base := ULONG_MAX;
      PickNone(m, q, all);
      for i := 0 to n
        invariant base != ULONG_MAX ==> q.end < 0 && base + q.size <= q.max
        invariant Picked(m, q, all[..i], base)
      {
        PickOneMore(m, q, all, i, base);
        base := Try(range[i], q, base);
        if base != ULONG_MAX && q.end > 0 {
          PickLower(m, q, all, i + 1, base);
          break;
        }
      }
      assert all[..n] == all;
      if base != ULONG_MAX && base + q.size > q.max {
        assert false;
      }
    }

    method LocateHole(q: Request) returns (r: Outcome<ulong>)
      requires Valid() && Ordered(segment) && Sane(m, q)
      ensures r.Die? <==> q.end == 0
      ensures r.Ok? ==> Picked(m, q, Gaps(m, segment, 0, 0), r.value)
      ensures r.Ok? && r.value != ULONG_MAX ==>
                r.value % Alignment(m, q) == 0 && r.value + q.size + Alignment(m, q) <= ULONG_MAX
      ensures r.Ok? ==>
                if r.value == ULONG_MAX then forall b :: !FreeHole(m, segment, q, b)
                else BestHole(m, segment, q, r.value)
    {
      if q.end == 0 {
        return Die;
      }
      PlacedFits(m, segment);
      GapsShape(m, segment, 0, 0);
      GapsAreBounded(m, segment, q);
      var range, n := FreeRanges();
      var base := Pick(range, n, q);
      PickedIsAligned(m, segment, q, base);
      PickedIsBest(m, segment, q, base);
      r := Ok(base);
    }

    /** Sizes are rounded, and the last address computed, in wrapping words. */
    method AddSegment(buf: array<byte>, bufsz: ulong, base: ulong, memsz: ulong) returns (r: Outcome<()>)
      requires Valid()
      modifies this`segment
      ensures Valid()
      ensures r.Ok? <==> memsz == 0 || (base % m.pagesize == 0 && m.Usable(base, base + WholePages(m, memsz) - 1))
      ensures r.Ok? ==> SegmentAdded(m, old(segment), segment, buf, bufsz, base, memsz)
      ensures r.Ok? && memsz > 0 ==>
        && |segment| == |old(segment)| + 1 && segment[..|old(segment)|] == old(segment)
        && var s := segment[|old(segment)|];
           && s.buf == buf && s.bufsz == (if bufsz <= memsz then bufsz else memsz)
           && s.mem == base && s.memsz % m.pagesize == 0 && memsz <= s.memsz < memsz + m.pagesize
      ensures r.Die? ==> segment == old(segment)
    {
      var bufsz' := bufsz;
      if bufsz > memsz {
        bufsz' := memsz;
      }
      if memsz == 0 {
        return Ok(());
      }
      var size: ulong := AlignDown((memsz + (m.pagesize - 1)) % ULONG_SIZE, m.pagesize);
      LowMaskIsRemainder(base, m.pagesize);
      if And(base, m.pagesize - 1) != 0 {
        return Die;
      }
      var last: ulong := Wrap(base + size - 1);
      WrappedPages(m, base, memsz, size, last);
      EntryIsPlaced(m, segment, buf, bufsz, base, memsz);
      PagesAreLeast(m, memsz);
      hide AllPlaced, Placed, WholePages, AlignDown;
      var valid := ValidMemoryRange(base, last);
      if !valid {
        return Die;
      }
      var s := Segment(buf, bufsz', base, size);
      segment := segment + [s];
      r := Ok(());
    }

    method AddBuffer(buf: array<byte>, bufsz: ulong, q: Request) returns (r: Outcome<ulong>)
      requires Valid() && Sane(m, q)
      modifies this`segment
      ensures Valid()
      ensures r.Ok? ==> BufferAdded(m, old(segment), segment, buf, bufsz, q, r.value)
      ensures r.Ok? && q.size > 0 ==>
        && |segment| == |old(segment)| + 1
        && var s := segment[|old(segment)|];
           && s.buf == buf && s.bufsz == (if bufsz <= q.size then bufsz else q.size)
           && s.mem == r.value && s.memsz % m.pagesize == 0 && q.size <= s.memsz < q.size + m.pagesize
      ensures r.Ok? <==> q.end != 0 && Disjoint(old(segment)) && Placeable(m, old(segment), q)
    {
      hide AllPlaced, Disjoint, Ordered, FreeHole, Picked, Gaps, WholePages;
      PlacedIsSolid(m, segment);
      var result := SortSegments();
      SamePlaced(m, old(segment), segment);
      if result < 0 {
        return Die;
      }
      BestHolePermutes(m, old(segment), segment, q);
      var found := LocateHole(q);
      if found.Die? || found.value == ULONG_MAX {
        return Die;
      }
      ghost var sorted := segment;
      var added := AddSegment(buf, bufsz, found.value, q.size);
      PlaceableAt(m, old(segment), q, found.value);
      if added.Die? {
        return Die;
      }
      assert segment[..|sorted|] == sorted;
      r := Ok(found.value);
    }

    /** The checks of my_load on whatever table the loaders left. */
    method CheckTable() returns (ok: bool)
      requires m.Ok()
      modifies this`segment
      ensures ok <==> Loadable(m, old(segment))
      ensures multiset(segment) == multiset(old(segment))
      ensures ok ==> Ordered(segment)
    {
      for i := 0 to |segment|
        invariant segment == old(segment) && Solid(segment[..i])
        invariant forall l :: 0 <= l < i ==> m.Usable(segment[l].mem, segment[l].End() - 1)
      {
        var send: ulong := Wrap(segment[i].mem + segment[i].memsz - 1);
        var valid := ValidMemoryRange(segment[i].mem, send);
        LastAddress(m, segment[i], send);
        if !valid {
          return false;
        }
      }
      assert segment[..|segment|] == segment;
      var result := SortSegments();
      ok := result >= 0;
    }
  }

  /** The checks my_load makes before it hands a table to the kernel. */
  ghost predicate Loadable(m: Machine, t: seq<Segment>) {
    && (forall l :: 0 <= l < |t| ==> 0 < t[l].memsz && m.Usable(t[l].mem, t[l].End() - 1))
    && Disjoint(t)
  }

  /** A non-empty segment in one RAM range within the limits, in plain terms. */
  lemma ValidMeans(m: Machine, s: Segment)
    ensures 0 < s.memsz && m.Usable(s.mem, s.End() - 1) <==>
      && 0 < s.memsz && m.memMin <= s.mem && s.mem + s.memsz - 1 <= m.memMax
      && exists r :: r in m.ranges && r.kind == RAM && r.start <= s.mem && s.mem + s.memsz - 1 <= r.end
  {
    UsableMeans(m, s.mem, s.End() - 1);
    hide Machine.Usable;
  }

  /** What my_load asks, in plain terms: every segment is valid, and no two share an address. */
  lemma LoadableMeans(m: Machine, t: seq<Segment>)
    ensures Loadable(m, t) <==>
      && (forall l :: 0 <= l < |t| ==> 0 < t[l].memsz && m.Usable(t[l].mem, t[l].mem + t[l].memsz - 1))
      && forall k, l :: 0 <= k < l < |t| ==> t[k].mem + t[k].memsz <= t[l].mem || t[l].mem + t[l].memsz <= t[k].mem
  {
    hide Machine.Usable;
    if Loadable(m, t) {
      forall k, l | 0 <= k < l < |t|
        ensures t[k].mem + t[k].memsz <= t[l].mem || t[l].mem + t[l].memsz <= t[k].mem
      {
        assert Apart(t[k], t[l]);
      }
    }
  }

  /** The last address, computed in wrapping words, is usable exactly for a non-empty segment that does not wrap. */
  lemma LastAddress(m: Machine, s: Segment, send: ulong)
    requires m.Ok() && send == Wrap(s.mem + s.memsz - 1)
    ensures m.Usable(s.mem, send) <==> 0 < s.memsz && m.Usable(s.mem, s.End() - 1)
    ensures m.Usable(s.mem, send) ==> s.End() <= ULONG_MAX
  {}

  /** Whatever mix of calls built the table, my_load accepts it exactly when it is disjoint. */
  lemma LoadableIffDisjoint(m: Machine, tables: seq<seq<Segment>>, calls: seq<Call>, k: nat)
    requires m.Ok() && Run(m, tables, calls) && k <= |calls|
    ensures Loadable(m, tables[k]) <==> Disjoint(tables[k])
  {
    MixedRunStaysPlaced(m, tables, calls, k);
    assert forall l :: 0 <= l < |tables[k]| ==> Placed(m, tables[k][l]);
  }

  /** A call that returned, with the base add_buffer chose. */
  datatype Call =
    | AddBuffer(buf: array<byte>, bufsz: ulong, q: Request, hole: ulong)
    | AddSegment(buf: array<byte>, bufsz: ulong, base: ulong, memsz: ulong)

  ghost predicate Did(m: Machine, t: seq<Segment>, c: Call, t': seq<Segment>)
  {
    match c
    case AddBuffer(buf, bufsz, q, hole) => Sane(m, q) && BufferAdded(m, t, t', buf, bufsz, q, hole)
    case AddSegment(buf, bufsz, base, memsz) => SegmentAdded(m, t, t', buf, bufsz, base, memsz)
  }

  /** The tables seen while a loader makes its calls, from the empty table on. */
  ghost predicate Run(m: Machine, tables: seq<seq<Segment>>, calls: seq<Call>)
  {
    && |tables| == |calls| + 1 && tables[0] == []
    && forall k :: 0 <= k < |calls| ==> Did(m, tables[k], calls[k], tables[k + 1])
  }

  /** What one call adds to the table. */
  ghost function Added(m: Machine, c: Call): multiset<Segment> {
    match c
    case AddBuffer(buf, bufsz, q, hole) => NewEntry(m, buf, bufsz, hole, q.size)
    case AddSegment(buf, bufsz, base, memsz) => NewEntry(m, buf, bufsz, base, memsz)
  }

  ghost function NewEntry(m: Machine, buf: array<byte>, bufsz: ulong, base: ulong, memsz: ulong): multiset<Segment> {
    if memsz == 0 || WholePages(m, memsz) >= ULONG_SIZE then multiset{} else multiset{Entry(m, buf, bufsz, base, memsz)}
  }

  /** A table stays valid under every call, and becomes disjoint with add_buffer; each call adds its entry only. */
  lemma CallKeeps(m: Machine, t: seq<Segment>, c: Call, t': seq<Segment>)
    requires m.Ok() && AllPlaced(m, t) && Did(m, t, c, t')
    ensures AllPlaced(m, t') && multiset(t') == multiset(t) + Added(m, c)
    ensures c.AddBuffer? ==> Disjoint(t')
  {
    hide WholePages;
    if c.AddBuffer? {
      BufferStaysApart(m, t, c, t');
    }
  }

  lemma BufferStaysApart(m: Machine, t: seq<Segment>, c: Call, t': seq<Segment>)
    requires m.Ok() && AllPlaced(m, t) && c.AddBuffer? && Did(m, t, c, t')
    ensures AllPlaced(m, t') && Disjoint(t') && multiset(t') == multiset(t) + Added(m, c)
  {
    hide WholePages, BestHole, FreeHole, Placed;
    var s := t'[..|t|];
    SamePlaced(m, t, s);
    SameMembers(t, s);
    if c.q.size > 0 {
      assert FreeHole(m, t, c.q, c.hole) by { BestIsFree(m, t, c.q, c.hole); }
      forall x | 0 <= x < |s| ensures Apart(s[x], t'[|t|]) {
        assert s[x] in s;
        RoundedHoleIsClear(m, t, c.q, c.hole, s[x]);
      }
    }
    OrderedIsDisjoint(s);
  }

  lemma BestIsFree(m: Machine, t: seq<Segment>, q: Request, b: int)
    requires BestHole(m, t, q, b)
    ensures FreeHole(m, t, q, b)
  {}

  lemma OrderedIsDisjoint(s: seq<Segment>)
    requires Ordered(s)
    ensures Disjoint(s)
  {}

  /** Over every run of add_buffer calls from an empty table, whole pages never collide and nothing placed is lost. */
  lemma {:induction false} BuffersStayDisjoint(m: Machine, tables: seq<seq<Segment>>, calls: seq<Call>, k: nat)
    requires m.Ok() && Run(m, tables, calls) && k <= |calls|
    requires forall i :: 0 <= i < |calls| ==> calls[i].AddBuffer?
    ensures AllPlaced(m, tables[k]) && Disjoint(tables[k])
    ensures forall i :: 0 <= i <= k ==> multiset(tables[i]) <= multiset(tables[k])
  {
    hide Did, Added;
    if k > 0 {
      BuffersStayDisjoint(m, tables, calls, k - 1);
      CallKeeps(m, tables[k - 1], calls[k - 1], tables[k]);
    }
  }

  /** Whatever mix of calls built it, every entry of the table is valid. */
  lemma {:induction false} MixedRunStaysPlaced(m: Machine, tables: seq<seq<Segment>>, calls: seq<Call>, k: nat)
    requires m.Ok() && Run(m, tables, calls) && k <= |calls|
    ensures AllPlaced(m, tables[k])
    ensures forall i :: 0 <= i <= k ==> multiset(tables[i]) <= multiset(tables[k])
  {
    hide Disjoint, Did, Added;
    if k > 0 {
      MixedRunStaysPlaced(m, tables, calls, k - 1);
      CallKeeps(m, tables[k - 1], calls[k - 1], tables[k]);
    }
  }

  /** add_buffer bounds the unrounded end of its entry by the request's maximum; the entry itself stays within it
      exactly when that end is within the last page boundary, and always if the request's last page is filled at
      least as far as the maximum's, as with every maximum that ends a page. */
  lemma EntryKeepsLimit(m: Machine, t: seq<Segment>, t': seq<Segment>, buf: array<byte>, bufsz: ulong, q: Request,
                        base: ulong)
    requires m.Ok() && Sane(m, q) && q.size > 0 && BufferAdded(m, t, t', buf, bufsz, q, base)
    ensures |t'| == |t| + 1 && base + q.size <= q.max
    ensures t'[|t|].End() - 1 <= q.max <==> base + q.size <= PageFloor(m, q.max + 1)
    ensures (q.max + 1) % m.pagesize <= (q.size - 1) % m.pagesize + 1 ==> t'[|t|].End() - 1 <= q.max
  {
    hide WholePages, PageFloor, FreeRun, Ordered, Disjoint;
    BestIsFree(m, t, q, base);
    FreeHoleEnds(m, t, q, base);
    PlaceableAt(m, t, q, base);
    EntryWithinLimit(m, q, base);
    LimitIsKept(m, q);
    hide FreeHole, BestHole;
  }

  lemma FreeHoleEnds(m: Machine, t: seq<Segment>, q: Request, b: int)
    requires FreeHole(m, t, q, b)
    ensures q.min <= b && b + q.size <= q.max
  {}

  /** The call put this entry in the table: its own buffer, cut to the size it asked for, in the least whole pages. */
  ghost predicate Made(m: Machine, c: Call, s: Segment) {
    var base := if c.AddBuffer? then c.hole else c.base;
    var size := if c.AddBuffer? then c.q.size else c.memsz;
    && s.buf == c.buf && s.bufsz == (if c.bufsz <= size then c.bufsz else size)
    && s.mem == base && s.memsz % m.pagesize == 0 && size <= s.memsz < size + m.pagesize
  }

  lemma CallMakes(m: Machine, t: seq<Segment>, c: Call, t': seq<Segment>, s: Segment)
    requires m.Ok() && AllPlaced(m, t) && Did(m, t, c, t') && s in t' && s !in t
    ensures Made(m, c, s)
  {
    hide AllPlaced, Machine.Ok, WholePages;
    CallKeeps(m, t, c, t');
    PagesAreLeast(m, if c.AddBuffer? then c.q.size else c.memsz);
    assert s in multiset(t') && s !in multiset(t);
    hide Did;
  }

  /** After every mix of calls, each entry of the table is one that some call made. */
  lemma {:induction false} EntriesAreMade(m: Machine, tables: seq<seq<Segment>>, calls: seq<Call>, k: nat, s: Segment)
    requires m.Ok() && Run(m, tables, calls) && k <= |calls| && s in tables[k]
    ensures exists i :: 0 <= i < k && Made(m, calls[i], s)
  {
    hide Did, Made, Machine.Ok, AllPlaced;
    if k > 0 {
      MixedRunStaysPlaced(m, tables, calls, k - 1);
      if s in tables[k - 1] {
        EntriesAreMade(m, tables, calls, k - 1, s);
      } else {
        CallMakes(m, tables[k - 1], calls[k - 1], tables[k], s);
      }
    }
  }

  /** So in plain terms, after every run of add_buffer calls each entry is whole pages of one RAM range within the
      limits, and no two share an address. */
  lemma BuffersInPlainTerms(m: Machine, tables: seq<seq<Segment>>, calls: seq<Call>, k: nat, x: nat, y: nat)
    requires m.Ok() && Run(m, tables, calls) && k <= |calls| && forall i :: 0 <= i < |calls| ==> calls[i].AddBuffer?
    requires x < y < |tables[k]|
    ensures var s, t := tables[k][x], tables[k][y];
            && 0 < s.memsz && s.bufsz <= s.memsz && s.mem % m.pagesize == 0 && s.memsz % m.pagesize == 0
            && m.memMin <= s.mem && s.mem + s.memsz - 1 <= m.memMax
            && (exists r :: r in m.ranges && r.kind == RAM && r.start <= s.mem && s.mem + s.memsz - 1 <= r.end)
            && (s.mem + s.memsz <= t.mem || t.mem + t.memsz <= s.mem)
  {
    BuffersStayDisjoint(m, tables, calls, k);
    hide Run, Machine.Ok;
    var s, t := tables[k][x], tables[k][y];
    assert Placed(m, s) && Apart(s, t);
    UsableMeans(m, s.mem, s.End() - 1);
    hide Machine.Usable;
  }

  /** So if every caller's buffer holds the bytes it promises, every entry's does: the kernel never reads past one. */
  lemma EntriesAreHeld(m: Machine, tables: seq<seq<Segment>>, calls: seq<Call>, k: nat, s: Segment)
    requires m.Ok() && Run(m, tables, calls) && k <= |calls| && s in tables[k]
    requires forall i :: 0 <= i < |calls| ==> calls[i].bufsz <= calls[i].buf.Length
    ensures s.bufsz <= s.buf.Length
  {
    hide Machine.Ok, Run, Machine.Usable;
    EntriesAreMade(m, tables, calls, k, s);
    var i :| 0 <= i < k && Made(m, calls[i], s);
  }

  lemma PlaceableAt(m: Machine, t: seq<Segment>, q: Request, b: int)
    requires m.Ok() && Sane(m, q) && BestHole(m, t, q, b)
    ensures b % m.pagesize == 0
    ensures Placeable(m, t, q) <==> (q.size > 0 ==> m.Usable(b, b + WholePages(m, q.size) - 1))
  {
    AlignmentIsPow2(m, q);
    DivisorChain(b, Alignment(m, q), m.pagesize);
    hide FreeHole, WholePages;
  }
}
