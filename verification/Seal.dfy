/** The sealing protocol: update_purgatory in kexec.c, and purgatory.c on the far side of the jump. */
module Seal {
  import opened Bits
  import opened Buffers
  import opened Memory
  import opened Fips180
  import opened Kexec
  import S = Sha256
  import L = ElfLayout

  const SHA256_REGIONS := 8

  datatype Region = Region(start: ulong, len: ulong)

  /** A segment as it will lie in memory: its buffer, then zeros. */
  ghost function Padded(s: Segment): seq<byte>
    requires s.bufsz <= s.memsz && s.bufsz <= s.buf.Length
    reads s.buf
  {
    s.buf[..s.bufsz] + Zeros(s.memsz - s.bufsz)
  }

  ghost predicate Backed(segs: seq<Segment>) {
    forall s :: s in segs ==> s.bufsz <= s.memsz && s.bufsz < 0x1_0000_0000 && s.bufsz <= s.buf.Length
  }

  ghost function Hashed(segs: seq<Segment>, rel: ulong): set<array<byte>> {
    set s | s in segs && s.mem != rel :: s.buf
  }

  /** The bytes the seal protects: every segment but purgatory's, in table order. */
  ghost function Image(segs: seq<Segment>, rel: ulong): seq<byte>
    requires Backed(segs)
    reads Hashed(segs, rel)
  {
    if segs == [] then []
    else
      var n := |segs| - 1;
      Image(segs[..n], rel) + if segs[n].mem == rel then [] else Padded(segs[n])
  }

  function Protected(segs: seq<Segment>, rel: ulong): seq<Region> {
    if segs == [] then []
    else
      var n := |segs| - 1;
      Protected(segs[..n], rel) + if segs[n].mem == rel then [] else [Region(segs[n].mem, segs[n].memsz)]
  }

  /** The image and the regions follow the table: those of two tables in a row are those of each, in that order. */
  lemma {:induction false} InTableOrder(a: seq<Segment>, b: seq<Segment>, rel: ulong)
    requires Backed(a) && Backed(b)
    ensures Backed(a + b) && Protected(a + b, rel) == Protected(a, rel) + Protected(b, rel)
    ensures Image(a + b, rel) == Image(a, rel) + Image(b, rel)
  {
    hide Padded, Image, Protected;
    BackedParts(a, b);
    if b == [] {
      EmptyTable(rel);
      assert a + b == a;
    } else {
      var n := |b| - 1;
      var init, s := b[..n], b[n];
      BackedParts(init, [s]);
      assert b == init + [s] && a + b == a + init + [s];
      InTableOrder(a, init, rel);
      LastSegment(a + b, a + init, s, rel);
      LastSegment(b, init, s, rel);
      hide Backed;
    }
  }

  lemma EmptyTable(rel: ulong)
    ensures Protected([], rel) == [] && Image([], rel) == []
  {}

  lemma BackedParts(a: seq<Segment>, b: seq<Segment>)
    ensures Backed(a + b) <==> Backed(a) && Backed(b)
  {
    assert forall s :: s in a + b <==> s in a || s in b;
  }

  /** What the last segment of a table adds. */
  lemma {:induction false} LastSegment(t: seq<Segment>, init: seq<Segment>, s: Segment, rel: ulong)
    requires t == init + [s] && Backed(t) && Backed(init)
    ensures s.bufsz <= s.memsz && s.bufsz <= s.buf.Length
    ensures Protected(t, rel) == Protected(init, rel) + if s.mem == rel then [] else [Region(s.mem, s.memsz)]
    ensures Image(t, rel) == Image(init, rel) + if s.mem == rel then [] else Padded(s)
  {
    assert s in t && t[..|t| - 1] == init;
    hide Padded;
  }

  /** One segment is protected whole, its buffer and then zeros, unless it is purgatory. */
  lemma OneSegment(s: Segment, rel: ulong)
    requires Backed([s])
    ensures s.bufsz <= s.memsz && s.bufsz <= s.buf.Length
    ensures Protected([s], rel) == if s.mem == rel then [] else [Region(s.mem, s.memsz)]
    ensures s.mem == rel ==> Image([s], rel) == []
    ensures s.mem != rel ==>
      |Image([s], rel)| == s.memsz && Image([s], rel)[..s.bufsz] == s.buf[..s.bufsz]
    ensures s.mem != rel ==> forall i :: s.bufsz <= i < s.memsz ==> Image([s], rel)[i] == 0
  {
    LastSegment([s], [], s, rel);
  }

  /** struct sha256_region[] in memory. */
  function Encode(rs: seq<Region>): (b: seq<byte>)
    ensures |b| == 16 * |rs|
  {
    if rs == [] then []
    else Encode(rs[..|rs| - 1]) + (Little(rs[|rs| - 1].start, 8) + Little(rs[|rs| - 1].len, 8))
  }

  function Full(rs: seq<Region>): (r: seq<Region>)
    requires |rs| <= SHA256_REGIONS
    ensures |r| == SHA256_REGIONS && rs <= r
  {
    rs + seq(SHA256_REGIONS - |rs|, _ => Region(0, 0))
  }

  /** A symbol as elf_sym decodes it, with its name and whether it binds globally. */
  datatype Symbol = Symbol(name: string, global: bool, shndx: nat, value: nat, size: nat)

  /** A section of the loaded object: bss, or with its data at an offset of the buffer. */
  datatype Place = Bss | Data(at: nat)

  /** The loaded object; `tables` are its symbol tables whose string table number is in range, in section order. */
  datatype Object = Object(places: seq<Place>, tables: seq<seq<Symbol>>)

  datatype Lookup = Found(sym: Symbol) | NotFound | BadSection

  predicate Named(sym: Symbol, name: string) { sym.global && sym.name == name }

  function Flat(tables: seq<seq<Symbol>>): seq<Symbol> {
    if tables == [] then [] else Flat(tables[..|tables| - 1]) + tables[|tables| - 1]
  }

  /** The first global symbol of the name decides. */
  function Find(syms: seq<Symbol>, name: string, shnum: nat): (r: Lookup)
    ensures r.NotFound? <==> forall k :: 0 <= k < |syms| ==> !Named(syms[k], name)
    ensures r.NotFound? <==> forall k :: 0 <= k < |syms| ==> !syms[k].global || syms[k].name != name
    ensures r.Found? ==> r.sym.global && r.sym.name == name && r.sym in syms && 0 < r.sym.shndx <= shnum
    ensures forall k ::
              0 <= k < |syms| && Named(syms[k], name) && (forall j :: 0 <= j < k ==> !Named(syms[j], name)) ==>
              r == if 0 < syms[k].shndx <= shnum then Found(syms[k]) else BadSection
  {
    if syms == [] then NotFound
    else if !Named(syms[0], name) then Find(syms[1..], name, shnum)
    else if syms[0].shndx == 0 || syms[0].shndx > shnum then BadSection
    else Found(syms[0])
  }

  function Resolve(o: Object, name: string): Lookup { Find(Flat(o.tables), name, |o.places|) }

  lemma {:induction false} FindPast(done: seq<Symbol>, syms: seq<Symbol>, name: string, shnum: nat)
    requires forall k :: 0 <= k < |done| ==> !Named(done[k], name)
    ensures Find(done + syms, name, shnum) == Find(syms, name, shnum)
  {
    if done == [] {
      assert done + syms == syms;
    } else {
      assert (done + syms)[1..] == done[1..] + syms;
      FindPast(done[1..], syms, name, shnum);
    }
  }

  lemma {:induction false} FlatFrom(tables: seq<seq<Symbol>>, i: nat, j: nat)
    requires i < |tables| && j <= |tables[i]|
    ensures exists rest :: Flat(tables) == Flat(tables[..i]) + tables[i][..j] + (tables[i][j..] + rest)
    decreases |tables|
  {
    var n := |tables| - 1;
    if i == n {
      assert Flat(tables) == Flat(tables[..i]) + tables[i][..j] + (tables[i][j..] + []);
    } else {
      FlatFrom(tables[..n], i, j);
      assert tables[..n][..i] == tables[..i];
      var rest :| Flat(tables[..n]) == Flat(tables[..i]) + tables[i][..j] + (tables[i][j..] + rest);
      assert Flat(tables) == Flat(tables[..i]) + tables[i][..j] + (tables[i][j..] + (rest + tables[n]));
    }
  }

  /** The first of the given symbols to match is the first of all. */
  lemma FoundAt(tables: seq<seq<Symbol>>, i: nat, j: nat, name: string, shnum: nat)
    requires i < |tables| && j < |tables[i]| && Named(tables[i][j], name)
    requires forall k :: 0 <= k < |Flat(tables[..i])| ==> !Named(Flat(tables[..i])[k], name)
    requires forall k :: 0 <= k < j ==> !Named(tables[i][k], name)
    ensures Find(Flat(tables), name, shnum)
         == if 0 < tables[i][j].shndx <= shnum then Found(tables[i][j]) else BadSection
  {
    FlatFrom(tables, i, j);
    var rest :| Flat(tables) == Flat(tables[..i]) + tables[i][..j] + (tables[i][j..] + rest);
    FindPast(Flat(tables[..i]) + tables[i][..j], tables[i][j..] + rest, name, shnum);
  }

  /** elf_rel_find_symbol; BadSection stands for its `die`. */
  method FindSymbol(o: Object, name: string) returns (r: Lookup)
    ensures r == Resolve(o, name)
  {
    for i := 0 to |o.tables|
      invariant forall k :: 0 <= k < |Flat(o.tables[..i])| ==> !Named(Flat(o.tables[..i])[k], name)
    {
      var table := o.tables[i];
      for j := 0 to |table|
        invariant forall k :: 0 <= k < j ==> !Named(table[k], name)
      {
        if Named(table[j], name) {
          FoundAt(o.tables, i, j, name, |o.places|);
          if table[j].shndx == 0 || table[j].shndx > |o.places| {
            return BadSection;
          }
          return Found(table[j]);
        }
      }
      assert o.tables[..i + 1][..i] == o.tables[..i];
    }
    assert o.tables[..|o.tables|] == o.tables;
    return NotFound;
  }

  /** What the source relies on: no global symbol's section is exactly e_shnum, and those with data lie in the
      buffer. */
  predicate Inside(o: Object, n: nat) {
    forall sym :: sym in Flat(o.tables) && sym.global && 0 < sym.shndx <= |o.places| ==>
      sym.shndx < |o.places| && (o.places[sym.shndx].Data? ==> o.places[sym.shndx].at + sym.value + sym.size <= n)
  }

  /** The symbol is there, has the size, and is not in bss. */
  predicate Settable(o: Object, name: string, size: nat) {
    var r := Resolve(o, name);
    r.Found? && r.sym.size == size && r.sym.shndx < |o.places| && o.places[r.sym.shndx].Data?
  }

  /** Where the symbol lies in the buffer. */
  function Offset(o: Object, name: string, size: nat): nat
    requires Settable(o, name, size)
  {
    var sym := Resolve(o, name).sym;
    o.places[sym.shndx].at + sym.value
  }

  /** The object's places are those elf_rel_load gave its sections, with the section table t, at base. */
  predicate PlacedAs(o: Object, t: seq<L.Section>, base: nat) {
    && |o.places| == |t|
    && forall i :: 0 <= i < |t| && t[i].alloc ==>
         if t[i].kind.NOBITS? then o.places[i].Bss? else o.places[i].Data? && base + o.places[i].at == t[i].addr
  }

  /** The place SetSymbol writes to is the symbol's address after linking: its value behind the address of its section,
      which is what a relocation that names it computes. */
  lemma SymbolAddress(o: Object, t: seq<L.Section>, base: nat, name: string, size: nat)
    requires Settable(o, name, size) && PlacedAs(o, t, base)
    requires t[Resolve(o, name).sym.shndx].alloc
    ensures var sym := Resolve(o, name).sym; base + Offset(o, name, size) == t[sym.shndx].addr + sym.value
  {}

  method SetSymbol(buf: array<byte>, o: Object, name: string, data: seq<byte>) returns (r: Outcome<()>)
    requires Inside(o, buf.Length)
    modifies buf
    ensures r.Ok? <==> Settable(o, name, |data|)
    ensures r.Ok? <==>
      var s := Resolve(o, name);
      s.Found? && s.sym.size == |data| && s.sym.shndx < |o.places| && !o.places[s.sym.shndx].Bss?
    ensures r.Ok? ==> Offset(o, name, |data|) + |data| <= buf.Length
    ensures r.Ok? ==> buf[..] == Spliced(old(buf[..]), Offset(o, name, |data|), data)
    ensures r.Die? ==> buf[..] == old(buf[..])
  {
    var found := FindSymbol(o, name);
    if !found.Found? || found.sym.size != |data| {
      return Die;
    }
    var place := o.places[found.sym.shndx];
    if place.Bss? {
      return Die;
    }
    Memcpy(buf, place.at + found.sym.value, data);
    r := Ok(());
  }

  const REGIONS := "sha256_regions"
  const DIGEST := "sha256_digest"

  /** The two symbols do not share bytes. */
  predicate SymbolsApart(o: Object) {
    Settable(o, REGIONS, 16 * SHA256_REGIONS) && Settable(o, DIGEST, 32) ==>
      var r, d := Offset(o, REGIONS, 16 * SHA256_REGIONS), Offset(o, DIGEST, 32);
      r + 16 * SHA256_REGIONS <= d || d + 32 <= r
  }

  method UpdatePurgatory(segs: seq<Segment>, rel: ulong, purgatory: array<byte>, o: Object) returns (r: Outcome<()>)
    requires Backed(segs) && |Protected(segs, rel)| <= SHA256_REGIONS
    requires forall s :: s in segs && s.mem != rel ==> s.buf != purgatory
    requires Inside(o, purgatory.Length) && SymbolsApart(o)
    modifies purgatory
    ensures Image(segs, rel) == old(Image(segs, rel))
    ensures r.Ok? <==> Settable(o, "sha256_regions", 128) && Settable(o, "sha256_digest", 32)
    ensures r.Ok? ==>
      Poked(segs, rel, purgatory[..], Offset(o, "sha256_regions", 128), Offset(o, "sha256_digest", 32))
  {
    hide Digest, Encode, Settable, Offset, Inside, Resolve, Protected, Full, Padded;
    var d, region := HashSegments(segs, rel);
    assert purgatory !in Hashed(segs, rel);
    ghost var image := Image(segs, rel);
    ghost var before := purgatory[..];
    r := SetSymbol(purgatory, o, REGIONS, Encode(Full(region)));
    if r.Ok? {
      r := SetSymbol(purgatory, o, DIGEST, d);
      if r.Ok? {
        BothStand(before, Offset(o, REGIONS, 128), Encode(Full(region)), Offset(o, DIGEST, 32), d);
      }
    }
    assert Image(segs, rel) == image;
  }

  /** Of two pieces written side by side, the second leaves the first alone. */
  lemma BothStand(b: seq<byte>, i: nat, x: seq<byte>, j: nat, y: seq<byte>)
    requires i + |x| <= |b| && j + |y| <= |b| && (i + |x| <= j || j + |y| <= i)
    ensures var c := Spliced(Spliced(b, i, x), j, y); c[i..i + |x|] == x && c[j..j + |y|] == y
  {}

  /** The loop of update_purgatory. */
  method HashSegments(segs: seq<Segment>, rel: ulong) returns (digest: seq<byte>, region: seq<Region>)
    requires Backed(segs)
    ensures digest == Digest(Image(segs, rel)) && region == Protected(segs, rel)
  {
    hide S.Context.Streaming, S.Context.Counted, S.Context.Tally, S.Carried, S.PadAs, S.DigestAs, Digest;
    var ctx := new S.Context.Starts();
    region := [];
    assert forall s :: s in segs ==> allocated(s.buf) && s.buf != ctx.buffer;
    for i := 0 to |segs|
      invariant ctx.Valid() && fresh(ctx) && fresh(ctx.state) && fresh(ctx.buffer)
      invariant ctx.message == Image(segs[..i], rel)
      invariant region == Protected(segs[..i], rel)
    {
      assert segs[..i + 1][..i] == segs[..i];
      ghost var done := Image(segs[..i], rel);
      assert ctx.buffer !in Hashed(segs[..i], rel);
      if segs[i].mem != rel {
        HashSegment(ctx, segs[i]);
        assert Image(segs[..i], rel) == done;
        region := region + [Region(segs[i].mem, segs[i].memsz)];
      }
      assert Image(segs[..i + 1], rel) == done + if segs[i].mem == rel then [] else Padded(segs[i]);
    }
    assert segs[..|segs|] == segs;
    ghost var image := Image(segs, rel);
    assert ctx.buffer !in Hashed(segs, rel);
    digest := ctx.Finish();
    assert Image(segs, rel) == image;
  }

  /** One turn of update_purgatory's loop: the buffer, then zeros in chunks of at most 256 bytes. */
  method HashSegment(ctx: S.Context, s: Segment)
    requires ctx.Valid() && s.buf != ctx.buffer
    requires s.bufsz <= s.memsz && s.bufsz < 0x1_0000_0000 && s.bufsz <= s.buf.Length
    modifies ctx, ctx.state, ctx.buffer
    ensures ctx.Valid() && ctx.message == old(ctx.message) + Padded(s)
  {
    hide S.Context.Streaming, S.Context.Counted;
    ctx.Update(s.buf[..s.bufsz]);
    var nullsz := s.memsz - s.bufsz;
    ghost var before := ctx.message;
    while nullsz > 0
      invariant 0 <= nullsz <= s.memsz - s.bufsz
      invariant ctx.Valid() && ctx.message == before + Zeros(s.memsz - s.bufsz - nullsz)
      invariant s.buf[..] == old(s.buf[..])
    {
      var bytes := if nullsz > 256 then 256 else nullsz;
      assert Zeros(s.memsz - s.bufsz - nullsz) + Zeros(bytes) == Zeros(s.memsz - s.bufsz - nullsz + bytes);
      ctx.Update(Zeros(bytes));
      nullsz := nullsz - bytes;
    }
  }

  /** Purgatory's image holds the regions and the digest of the bytes they name. */
  ghost predicate Poked(segs: seq<Segment>, rel: ulong, image: seq<byte>, regionsAt: nat, digestAt: nat)
    requires Backed(segs) && |Protected(segs, rel)| <= SHA256_REGIONS
    reads Hashed(segs, rel)
  {
    && regionsAt + 16 * SHA256_REGIONS <= |image| && digestAt + 32 <= |image|
    && image[regionsAt..regionsAt + 16 * SHA256_REGIONS] == Encode(Full(Protected(segs, rel)))
    && image[digestAt..digestAt + 32] == Digest(Image(segs, rel))
  }
}
