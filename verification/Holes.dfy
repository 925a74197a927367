/** What locate_hole looks for, stated without gaps, and its equivalence with the search over gaps. */
module Holes {
  import opened Bits
  import opened Memory

  /** The arguments of locate_hole; `end` is positive for bottom-up and negative for top-down allocation. */
  datatype Request = Request(size: ulong, align: ulong, min: ulong, max: ulong, end: int)

  /** hole_align after the adjustments at the top of locate_hole. */
  function Alignment(m: Machine, q: Request): (r: ulong)
    ensures m.pagesize <= r && q.align <= r && (r == m.pagesize || r == q.align)
    ensures 2 <= r && (q.align == 0 || IsPow2(q.align) ==> IsPow2(r))
  {
    if q.align < m.pagesize then m.pagesize else q.align
  }

  /** The alignment is 0 or a power of two, and rounding an address up by it does not wrap. */
  ghost predicate Sane(m: Machine, q: Request) {
    && (q.align == 0 || IsPow2(q.align))
    && q.min + Alignment(m, q) <= ULONG_MAX && m.memMin + Alignment(m, q) <= ULONG_MAX
    && forall i :: 0 <= i < |m.ranges| && m.ranges[i].kind.RAM? ==> m.ranges[i].end + Alignment(m, q) <= ULONG_MAX
  }

  lemma AlignmentIsPow2(m: Machine, q: Request)
    requires m.Ok() && Sane(m, q)
    ensures IsPow2(Alignment(m, q)) && Alignment(m, q) % m.pagesize == 0
  {
    Pow2Divides(m.pagesize, Alignment(m, q));
  }

  function Max(x: ulong, y: ulong): ulong { if x < y then y else x }
  function Min(x: ulong, y: ulong): ulong { if x > y then y else x }

  /** A gap seen through mem_min, mem_max and the request's own bounds, before alignment. */
  function Lo(m: Machine, q: Request, g: Gap): ulong { Max(Max(g.start, m.memMin), q.min) }
  function Hi(m: Machine, q: Request, g: Gap): ulong { Min(Min(g.end, m.memMax), q.max) }

  /** Base b is aligned and b..b+size fits the clipped gap; a clipped gap of one address is never used. */
  ghost predicate Fits(m: Machine, q: Request, g: Gap, b: int) {
    && b % Alignment(m, q) == 0
    && Lo(m, q, g) <= b && b + q.size <= Hi(m, q, g)
    && exists s :: s % Alignment(m, q) == 0 && Lo(m, q, g) <= s < Hi(m, q, g)
  }

  ghost predicate GapHole(m: Machine, q: Request, gaps: seq<Gap>, b: int) {
    exists g :: g in gaps && Fits(m, q, g, b)
  }

  lemma GapHoleConcat(m: Machine, q: Request, gaps: seq<Gap>, g: Gap)
    ensures forall b :: GapHole(m, q, gaps + [g], b) <==> GapHole(m, q, gaps, b) || Fits(m, q, g, b)
  {}

  ghost predicate Bounded(m: Machine, q: Request, g: Gap) {
    Sane(m, q) && g.start <= g.end && g.end + Alignment(m, q) <= ULONG_MAX
  }

  function Start(m: Machine, q: Request, g: Gap): ulong
    requires Bounded(m, q, g)
  {
    AlignUp(Lo(m, q, g), Alignment(m, q))
  }

  predicate Room(m: Machine, q: Request, g: Gap)
    requires Bounded(m, q, g)
  {
    Start(m, q, g) < Hi(m, q, g) && q.size <= Hi(m, q, g) - Start(m, q, g)
  }

  function Top(m: Machine, q: Request, g: Gap): ulong
    requires Bounded(m, q, g) && Room(m, q, g)
  {
    AlignDown(Hi(m, q, g) - q.size, Alignment(m, q))
  }

  /** A base fits the gap only between its aligned start and its end less the size, aligned down. */
  lemma FitsBetween(m: Machine, q: Request, g: Gap, b: int)
    requires Bounded(m, q, g) && Fits(m, q, g, b)
    ensures Room(m, q, g) && Start(m, q, g) <= b <= Top(m, q, g)
  {
    var a, lo, end := Alignment(m, q), Lo(m, q, g), Hi(m, q, g);
    var s :| s % a == 0 && lo <= s < end;
    AlignUpLeast(lo, a, s);
    AlignUpLeast(lo, a, b);
    AlignDownGreatest(end - q.size, a, b);
  }

  lemma ExtremesFit(m: Machine, q: Request, g: Gap)
    requires Bounded(m, q, g) && Room(m, q, g)
    ensures Fits(m, q, g, Start(m, q, g)) && Fits(m, q, g, Top(m, q, g))
    ensures g.start <= Start(m, q, g) <= Top(m, q, g) && Top(m, q, g) + q.size <= q.max
    ensures Top(m, q, g) != ULONG_MAX
  {
    AlignDownGreatest(Hi(m, q, g) - q.size, Alignment(m, q), Start(m, q, g));
  }

  /** The result of a search over gaps: ULONG_MAX when nothing fits, else the outermost base that does. */
  ghost predicate Picked(m: Machine, q: Request, gaps: seq<Gap>, base: ulong) {
    if base == ULONG_MAX then forall b :: !GapHole(m, q, gaps, b)
    else GapHole(m, q, gaps, base) && forall b :: GapHole(m, q, gaps, b) ==> if q.end > 0 then base <= b else b <= base
  }

  lemma PickNone(m: Machine, q: Request, all: seq<Gap>)
    ensures Picked(m, q, all[..0], ULONG_MAX)
  {}

  /** What the search makes of one more gap. */
  function Step(m: Machine, q: Request, g: Gap, base: ulong): ulong
    requires Bounded(m, q, g)
  {
    if !Room(m, q, g) then base else if q.end > 0 then Start(m, q, g) else Top(m, q, g)
  }

  /** One more gap above the others: bottom-up search takes the first base, top-down search the last. */
  lemma PickOneMore(m: Machine, q: Request, all: seq<Gap>, i: nat, base: ulong)
    requires i < |all| && Ascending(all) && Bounded(m, q, all[i])
    requires Picked(m, q, all[..i], base)
    requires q.end > 0 ==> base == ULONG_MAX
    ensures Picked(m, q, all[..i + 1], Step(m, q, all[i], base))
    ensures Step(m, q, all[i], base) != base ==> Step(m, q, all[i], base) + q.size <= q.max
  {
    hide Fits, Start, Top, Room, GapHole;
    var g, gaps, next := all[i], all[..i], Step(m, q, all[i], base);
    assert all[..i + 1] == gaps + [g];
    GapHoleConcat(m, q, gaps, g);
    forall b | Fits(m, q, g, b) ensures Room(m, q, g) && Start(m, q, g) <= b <= Top(m, q, g) {
      FitsBetween(m, q, g, b);
    }
    if Room(m, q, g) {
      ExtremesFit(m, q, g);
      forall b | GapHole(m, q, gaps, b) ensures b < next {
        HolesBelow(m, q, gaps, g, b);
      }
    }
  }

  lemma HolesBelow(m: Machine, q: Request, gaps: seq<Gap>, g: Gap, b: int)
    requires forall x :: 0 <= x < |gaps| ==> gaps[x].end < g.start
    requires GapHole(m, q, gaps, b)
    ensures b < g.start
  {}

  lemma FitsInside(m: Machine, q: Request, g: Gap, b: int)
    requires Fits(m, q, g, b)
    ensures g.start <= b <= g.end
  {}

  /** Gaps above the one that holds a bottom-up base offer nothing lower. */
  lemma PickLower(m: Machine, q: Request, all: seq<Gap>, n: nat, base: ulong)
    requires n <= |all| && q.end > 0 && base != ULONG_MAX
    requires Ascending(all) && Picked(m, q, all[..n], base)
    ensures Picked(m, q, all, base)
  {
    var x :| 0 <= x < n && Fits(m, q, all[x], base);
    forall b | GapHole(m, q, all, b) ensures base <= b {
      var y :| 0 <= y < |all| && Fits(m, q, all[y], b);
      FitsInside(m, q, all[x], base);
      FitsInside(m, q, all[y], b);
      hide Fits, Lo, Hi;
      if y < n {
        assert all[y] in all[..n] && GapHole(m, q, all[..n], b);
      }
    }
  }

  ghost predicate Clear(segs: seq<Segment>, a: int, b: int) {
    forall s :: s in segs ==> s.End() <= a || b < s.mem
  }

  /** a..b is one run of usable RAM within the request's bounds, clear of every segment. */
  ghost predicate FreeRun(m: Machine, segs: seq<Segment>, q: Request, a: int, b: int) {
    q.min <= a && b <= q.max && m.Usable(a, b) && Clear(segs, a, b)
  }

  /** b is aligned, and b..b+size is a free run; an empty request still needs an aligned address below the end of
      its run, which may be b itself or the one before. */
  ghost predicate FreeHole(m: Machine, segs: seq<Segment>, q: Request, b: int) {
    && b % Alignment(m, q) == 0
    && FreeRun(m, segs, q, b, b + q.size)
    && (q.size == 0 ==> FreeRun(m, segs, q, b, b + 1) || FreeRun(m, segs, q, b - Alignment(m, q), b))
  }

  /** The hole locate_hole promises: the lowest one, or for top-down allocation the highest. */
  ghost predicate BestHole(m: Machine, segs: seq<Segment>, q: Request, b: int) {
    && FreeHole(m, segs, q, b)
    && forall c :: FreeHole(m, segs, q, c) ==> if q.end > 0 then b <= c else c <= b
  }

  lemma BestHoleUnique(m: Machine, segs: seq<Segment>, q: Request, b: int, c: int)
    requires BestHole(m, segs, q, b) && BestHole(m, segs, q, c)
    ensures b == c
  {}

  lemma SameMembers(s: seq<Segment>, t: seq<Segment>)
    requires multiset(s) == multiset(t)
    ensures forall x :: x in s <==> x in t
    ensures forall a, b :: Clear(s, a, b) <==> Clear(t, a, b)
  {
    assert forall x :: x in s <==> x in multiset(s);
    assert forall x :: x in t <==> x in multiset(t);
  }

  lemma BestHolePermutes(m: Machine, s: seq<Segment>, t: seq<Segment>, q: Request)
    requires multiset(s) == multiset(t)
    ensures forall b :: FreeHole(m, s, q, b) <==> FreeHole(m, t, q, b)
    ensures forall b :: BestHole(m, s, q, b) <==> BestHole(m, t, q, b)
  {
    SameMembers(s, t);
  }

  lemma GapMisses(m: Machine, segs: seq<Segment>, g: Gap, x: int)
    requires m.Ok() && AllPlaced(m, segs) && Ordered(segs) && Fit(segs)
    requires g in Gaps(m, segs, 0, 0) && g.start <= x <= g.end
    ensures !InSegment(segs, 0, x)
  {
    hide AllPlaced, Machine.Ok, Gaps;
    assert Covers(Gaps(m, segs, 0, 0), x);
    GapsExact(m, segs, x);
  }

  lemma GapIsInside(m: Machine, segs: seq<Segment>, g: Gap, a: int, b: int)
    requires m.Ok() && AllPlaced(m, segs) && Ordered(segs) && Fit(segs)
    requires g in Gaps(m, segs, 0, 0) && g.start <= a <= b <= g.end
    ensures exists k: nat :: m.Inside(k, a, b)
  {
    GapsShape(m, segs, 0, 0);
    assert GapShape(m, segs, 0, 0, g);
    var k: nat :| m.Inside(k, g.start, g.end);
    assert m.Inside(k, a, b);
  }

  /** What lies in a clipped gap is a free run. */
  lemma GapIsFree(m: Machine, segs: seq<Segment>, q: Request, g: Gap, a: int, b: int)
    requires m.Ok() && AllPlaced(m, segs) && Ordered(segs) && Fit(segs)
    requires g in Gaps(m, segs, 0, 0) && Lo(m, q, g) <= a <= b <= Hi(m, q, g)
    ensures FreeRun(m, segs, q, a, b)
  {
    hide Machine.Ok, Gaps, Ordered, Fit;
    GapIsInside(m, segs, g, a, b);
    forall s | s in segs ensures s.End() <= a || b < s.mem {
      var l :| 0 <= l < |segs| && segs[l] == s;
      assert Placed(m, s);
      var x := if s.mem < a then a else s.mem;
      if a < s.End() && s.mem <= b {
        assert segs[l].Has(x);
        GapMisses(m, segs, g, x);
        assert false;
      }
    }
  }

  /** A free run lies in one clipped gap. */
  lemma FreeIsInGap(m: Machine, segs: seq<Segment>, q: Request, a: int, b: int) returns (g: Gap)
    requires m.Ok() && AllPlaced(m, segs) && Ordered(segs) && Fit(segs)
    requires FreeRun(m, segs, q, a, b)
    ensures g in Gaps(m, segs, 0, 0) && Lo(m, q, g) <= a <= b <= Hi(m, q, g)
  {
    var i :| m.Inside(i, a, b);
    assert m.Inside(i, a, a);
    forall l | 0 <= l < |segs| ensures !segs[l].Has(a) { assert segs[l] in segs; }
    GapsExact(m, segs, a);
    g :| g in Gaps(m, segs, 0, 0) && g.start <= a <= g.end;
    RunStaysInGap(m, segs, g, i, a, b);
  }

  /** A clear run of RAM that starts in a gap also ends in it. */
  lemma RunStaysInGap(m: Machine, segs: seq<Segment>, g: Gap, i: nat, a: int, b: int)
    requires m.Ok() && AllPlaced(m, segs) && Ordered(segs) && Fit(segs)
    requires g in Gaps(m, segs, 0, 0) && g.start <= a <= g.end
    requires m.Inside(i, a, b) && Clear(segs, a, b)
    ensures b <= g.end
  {
    GapsShape(m, segs, 0, 0);
    assert GapShape(m, segs, 0, 0, g);
    var k: nat :| m.Inside(k, g.start, g.end) && Stops(g, m.ranges[k].end, segs, 0);
    assert k == i;
    assert forall l :: 0 <= l < |segs| ==> segs[l] in segs && Placed(m, segs[l]);
  }

  /** An aligned address below the end of a clipped gap is at, before or behind any other aligned one. */
  lemma AlignedStarts(m: Machine, q: Request, g: Gap, b: int)
    requires b % Alignment(m, q) == 0 && Lo(m, q, g) <= b <= Hi(m, q, g)
    ensures (exists s :: s % Alignment(m, q) == 0 && Lo(m, q, g) <= s < Hi(m, q, g))
      <==> b + 1 <= Hi(m, q, g) || Lo(m, q, g) <= b - Alignment(m, q)
  {
    var a := Alignment(m, q);
    if s :| s % a == 0 && Lo(m, q, g) <= s < Hi(m, q, g) {
      Multiples(s, b, a);
    }
    if Lo(m, q, g) <= b - a {
      Multiples(a, b, a) by { ModIs(a, a, 1, 0); }
      assert (b - a) % a == 0;
    }
  }

  /** Searching the clipped gaps is searching free memory. */
  lemma GapHolesAreFreeHoles(m: Machine, segs: seq<Segment>, q: Request, b: int)
    requires m.Ok() && AllPlaced(m, segs) && Ordered(segs) && Fit(segs)
    ensures GapHole(m, q, Gaps(m, segs, 0, 0), b) <==> FreeHole(m, segs, q, b)
  {
    hide Lo, Hi, Alignment, FreeRun, Gaps, Machine.Ok, AllPlaced, Ordered, Fit;
    if GapHole(m, q, Gaps(m, segs, 0, 0), b) {
      var g :| g in Gaps(m, segs, 0, 0) && Fits(m, q, g, b);
      AlignedStarts(m, q, g, b);
      GapIsFree(m, segs, q, g, b, b + q.size);
      if q.size == 0 {
        if b + 1 <= Hi(m, q, g) {
          GapIsFree(m, segs, q, g, b, b + 1);
        } else {
          GapIsFree(m, segs, q, g, b - Alignment(m, q), b);
        }
      }
    }
    if FreeHole(m, segs, q, b) {
      var g;
      if q.size > 0 {
        g := FreeIsInGap(m, segs, q, b, b + q.size);
      } else if FreeRun(m, segs, q, b, b + 1) {
        g := FreeIsInGap(m, segs, q, b, b + 1);
      } else {
        g := FreeIsInGap(m, segs, q, b - Alignment(m, q), b);
      }
      AlignedStarts(m, q, g, b);
      assert Fits(m, q, g, b);
    }
  }

  /** A hole needs one free address past its last byte, because gap ends are inclusive: memory that the request
      would fill to the last byte is refused. */
  lemma ExactFitIsRefused()
    ensures var m := Machine([MemoryRange(0, 0xfff, RAM)], 0x1000, 0, ULONG_MAX);
            var q := Request(0x1000, 0, 0, ULONG_MAX, 1);
            && m.Ok() && Sane(m, q) && m.Usable(0, q.size - 1)
            && forall b :: !FreeHole(m, [], q, b)
  {
    Pow2Product(0x40, 0x40);
    var m := Machine([MemoryRange(0, 0xfff, RAM)], 0x1000, 0, ULONG_MAX);
    assert m.Inside(0, 0, 0xfff);
  }

  /** Whole pages for n bytes: the rounding add_segment does. */
  function WholePages(m: Machine, n: nat): nat
  {
    (n + m.pagesize - 1) / m.pagesize * m.pagesize
  }

  lemma WholePagesLeast(m: Machine, n: nat, y: int)
    requires n <= y && y % m.pagesize == 0
    ensures WholePages(m, n) % m.pagesize == 0 && n <= WholePages(m, n) <= y
  {
    var p := m.pagesize;
    var w := WholePages(m, n);
    ModIs(w, p, (n + p - 1) / p, 0);
    assert n + p - 1 == w + (n + p - 1) % p;
    if y < w {
      Multiples(y, w, p);
    }
  }

  lemma WholePagesFit(m: Machine, n: ulong)
    ensures n <= WholePages(m, n) && WholePages(m, n) % m.pagesize == 0
  {
    WordIsPow2();
    Pow2Divides(m.pagesize, ULONG_SIZE);
    WholePagesLeast(m, n, ULONG_SIZE);
  }

  /** A hole searched with the unrounded size stays clear of every segment after rounding up to whole pages. */
  lemma RoundedHoleIsClear(m: Machine, segs: seq<Segment>, q: Request, b: int, s: Segment)
    requires m.Ok() && Sane(m, q) && AllPlaced(m, segs) && s in segs
    requires FreeHole(m, segs, q, b)
    ensures s.End() <= b || b + WholePages(m, q.size) <= s.mem
  {
    assert Placed(m, s);
    AlignmentIsPow2(m, q);
    DivisorChain(b, Alignment(m, q), m.pagesize);
    if b < s.End() {
      Multiples(b, s.mem, m.pagesize);
      WholePagesLeast(m, q.size, s.mem - b);
    }
  }

  /** The last page boundary at or below x. */
  function PageFloor(m: Machine, x: nat): (r: nat)
    ensures r <= x
  {
    x - x % m.pagesize
  }

  /** An entry at base b ends within the request's maximum exactly when its unrounded end is within the last page
      boundary there. */
  lemma {:induction false} EntryWithinLimit(m: Machine, q: Request, b: int)
    requires b % m.pagesize == 0
    ensures b + WholePages(m, q.size) - 1 <= q.max <==> b + q.size <= PageFloor(m, q.max + 1)
  {
    hide WholePages;
    var p, w: int, top := m.pagesize, WholePages(m, q.size), PageFloor(m, q.max + 1);
    RemainderClears(q.max + 1, p);
    WholePagesFit(m, q.size);
    Multiples(b, w, p);
    Multiples(top, b + w, p);
    Multiples(b, top, p);
    if b + q.size <= top {
      WholePagesLeast(m, q.size, top - b);
    }
  }

  /** Rounding never takes an entry past the maximum, wherever it is put, if and only if the request's last page is
      filled at least as far as the maximum's. */
  lemma {:induction false} LimitIsKept(m: Machine, q: Request)
    requires 0 < q.size <= q.max
    ensures (forall b: nat :: b % m.pagesize == 0 && b + q.size <= q.max ==> b + WholePages(m, q.size) - 1 <= q.max)
      <==> (q.max + 1) % m.pagesize <= (q.size - 1) % m.pagesize + 1
  {
    hide WholePages;
    var p, w, k := m.pagesize, WholePages(m, q.size), FirstBeyond(m, q);
    var tail := (q.size - 1) % p + 1;
    FirstBeyondIs(m, q);
    if tail < (q.max + 1) % p {
      var b: nat := k;
      assert b % m.pagesize == 0 && b + q.size <= q.max && b + w - 1 > q.max;
    } else {
      forall b: nat | b % m.pagesize == 0 && b + q.size <= q.max ensures b + w - 1 <= q.max {
        if b + w - 1 > q.max { BeyondFrom(m, q, b); }
      }
    }
  }

  /** The lowest page at which an entry of the request's size ends beyond the page boundary of its maximum. */
  function FirstBeyond(m: Machine, q: Request): int {
    PageFloor(m, q.max + 1) + m.pagesize - WholePages(m, q.size)
  }

  lemma {:induction false} FirstBeyondIs(m: Machine, q: Request)
    requires 0 < q.size <= q.max
    ensures var k, p, tail := FirstBeyond(m, q), m.pagesize, (q.size - 1) % m.pagesize + 1;
            && k % p == 0 && k + q.size == PageFloor(m, q.max + 1) + tail
            && (tail < (q.max + 1) % p ==> 0 <= k)
  {
    hide WholePages;
    var p, top, w: int := m.pagesize, PageFloor(m, q.max + 1), WholePages(m, q.size);
    RemainderClears(q.max + 1, p);
    LastPage(m, q.size);
    WholePagesFit(m, q.size);
    ModIs(p, p, 1, 0);
    Multiples(top, p, p);
    Multiples(w, top + p, p);
    Multiples(top + p - w, 0, p) by { ModIs(0, p, 0, 0); }
  }

  lemma {:induction false} BeyondFrom(m: Machine, q: Request, b: int)
    requires 0 < q.size <= q.max && b % m.pagesize == 0 && b + WholePages(m, q.size) - 1 > q.max
    ensures FirstBeyond(m, q) <= b
  {
    hide WholePages;
    var p, top, w: int := m.pagesize, PageFloor(m, q.max + 1), WholePages(m, q.size);
    RemainderClears(q.max + 1, p);
    WholePagesFit(m, q.size);
    Multiples(b, w, p);
    Multiples(top, b + w, p);
  }

  /** The rounded size is a page more than what is left after the last page. */
  lemma {:induction false} LastPage(m: Machine, n: nat)
    requires 0 < n
    ensures WholePages(m, n) == n - 1 - (n - 1) % m.pagesize + m.pagesize
  {
    var p := m.pagesize;
    ModIs(n + p - 1, p, (n - 1) / p + 1, (n - 1) % p);
  }

  /** A request below a maximum whose entry ends beyond it. */
  lemma LimitPassed()
    ensures var m := Machine([MemoryRange(0, 0x2fff, RAM)], 0x1000, 0, ULONG_MAX);
            var q := Request(0x100, 0, 0, 0x200, 1);
            m.Ok() && Sane(m, q) && BestHole(m, [], q, 0) && WholePages(m, q.size) - 1 > q.max
  {
    Pow2Product(0x40, 0x40);
    var m := Machine([MemoryRange(0, 0x2fff, RAM)], 0x1000, 0, ULONG_MAX);
    assert m.Inside(0, 0, 0x100);
  }

  lemma GapsAreBounded(m: Machine, segs: seq<Segment>, q: Request)
    requires m.Ok() && AllPlaced(m, segs) && Ordered(segs) && Fit(segs) && Sane(m, q)
    ensures forall x :: 0 <= x < |Gaps(m, segs, 0, 0)| ==> Bounded(m, q, Gaps(m, segs, 0, 0)[x])
  {
    GapsShape(m, segs, 0, 0);
    forall x | 0 <= x < |Gaps(m, segs, 0, 0)| ensures Bounded(m, q, Gaps(m, segs, 0, 0)[x]) {
      assert GapShape(m, segs, 0, 0, Gaps(m, segs, 0, 0)[x]);
    }
  }

  lemma PickedIsAligned(m: Machine, segs: seq<Segment>, q: Request, base: ulong)
    requires m.Ok() && AllPlaced(m, segs) && Ordered(segs) && Fit(segs) && Sane(m, q)
    requires Picked(m, q, Gaps(m, segs, 0, 0), base)
    ensures base != ULONG_MAX ==> base % Alignment(m, q) == 0 && base + q.size + Alignment(m, q) <= ULONG_MAX
  {
    if base == ULONG_MAX { return; }
    GapsAreBounded(m, segs, q);
    var x :| 0 <= x < |Gaps(m, segs, 0, 0)| && Fits(m, q, Gaps(m, segs, 0, 0)[x], base);
  }

  /** The search over gaps returns the best free hole, or ULONG_MAX exactly when there is none. */
  lemma PickedIsBest(m: Machine, segs: seq<Segment>, q: Request, base: ulong)
    requires m.Ok() && AllPlaced(m, segs) && Ordered(segs) && Fit(segs)
    requires Picked(m, q, Gaps(m, segs, 0, 0), base)
    ensures if base == ULONG_MAX then forall b :: !FreeHole(m, segs, q, b) else BestHole(m, segs, q, base)
  {
    hide FreeHole, GapHole;
    forall b ensures GapHole(m, q, Gaps(m, segs, 0, 0), b) <==> FreeHole(m, segs, q, b) {
      GapHolesAreFreeHoles(m, segs, q, b);
    }
  }

  /** Rounding and adding in wrapping words never makes an unusable run of pages look usable. */
  lemma {:induction false} WrappedPages(m: Machine, base: ulong, memsz: ulong, size: ulong, last: ulong)
    requires m.Ok() && memsz > 0 && base % m.pagesize == 0
    requires size == AlignDown((memsz + (m.pagesize - 1)) % ULONG_SIZE, m.pagesize)
    requires last == Wrap(base + size - 1)
    ensures m.Usable(base, last) <==> m.Usable(base, base + WholePages(m, memsz) - 1)
    ensures m.Usable(base, last) ==> size == WholePages(m, memsz) && last == base + size - 1
  {
    hide WholePages, AlignDown, Machine.Ok;
    WrappedSize(m, memsz, size);
    UsableIsLow(m, base, last);
    UsableIsLow(m, base, base + WholePages(m, memsz) - 1);
    Wrapped(base + size - 1);
    hide Machine.Usable, Wrap;
  }

  /** The value a word takes. */
  function Wrap(x: int): ulong { x % ULONG_SIZE }

  lemma Wrapped(x: int)
    requires -ULONG_SIZE <= x < 2 * ULONG_SIZE
    ensures Wrap(x) == if x < 0 then x + ULONG_SIZE else if x < ULONG_SIZE then x else x - ULONG_SIZE
  {}

  lemma UsableIsLow(m: Machine, a: int, b: int)
    requires m.Ok()
    ensures m.Usable(a, b) ==> a <= b <= ULONG_MAX - m.pagesize
  {}

  lemma WrappedSize(m: Machine, memsz: ulong, size: ulong)
    requires memsz > 0
    requires size == AlignDown((memsz + (m.pagesize - 1)) % ULONG_SIZE, m.pagesize)
    ensures memsz <= WholePages(m, memsz)
    ensures size == if memsz + (m.pagesize - 1) < ULONG_SIZE then WholePages(m, memsz) else 0
  {
    hide AlignDown;
    WholePagesFit(m, memsz);
    var x := (memsz + (m.pagesize - 1)) % ULONG_SIZE;
    if memsz + (m.pagesize - 1) < ULONG_SIZE {
      hide WholePages;
      WholePagesLeast(m, memsz, AlignUp(memsz, m.pagesize));
      AlignUpLeast(memsz, m.pagesize, WholePages(m, memsz));
    } else {
      assert x < m.pagesize;
      Multiples(0, size, m.pagesize);
    }
  }
}
