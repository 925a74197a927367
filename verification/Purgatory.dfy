/** purgatory.c: between the kernels, the protected memory is hashed again. */
module Purgatory {
  import opened Bits
  import opened Memory
  import opened Fips180
  import opened Seal
  import S = Sha256

  type Contents = int -> byte

  function Read(mem: Contents, at: int, n: nat): (r: seq<byte>)
    ensures |r| == n && forall i :: 0 <= i < n ==> r[i] == mem(at + i)
  {
    seq(n, i => mem(at + i))
  }

  /** sha256_regions[k], with the array at address `at`. */
  function RegionAt(mem: Contents, at: int, k: nat): Region {
    WordWidths();
    Region(FromLittle(Read(mem, at + 16 * k, 8)), FromLittle(Read(mem, at + 16 * k + 8, 8)))
  }

  /** What sha256_update demands of its callers. */
  predicate SmallRegions(mem: Contents, at: int) {
    forall k :: 0 <= k < SHA256_REGIONS ==> RegionAt(mem, at, k).len < 0x1_0000_0000
  }

  /** The memory named by the first n regions, in order. */
  function Swept(mem: Contents, at: int, n: nat): seq<byte> {
    if n == 0 then []
    else Swept(mem, at, n - 1) + Read(mem, RegionAt(mem, at, n - 1).start, RegionAt(mem, at, n - 1).len)
  }

  /** The byte count the sweep arrives at; it is the length of the sweep if the regions are small. */
  function SweptCount(mem: Contents, at: int, n: nat): nat {
    if n == 0 then 0 else S.Carried(SweptCount(mem, at, n - 1), RegionAt(mem, at, n - 1).len)
  }

  lemma {:induction false} SmallCount(mem: Contents, at: int, n: nat)
    requires SmallRegions(mem, at) && n <= SHA256_REGIONS
    ensures SweptCount(mem, at, n) == |Swept(mem, at, n)|
  {
    hide RegionAt, S.Carried;
    if n > 0 {
      SmallCount(mem, at, n - 1);
      var count := SweptCount(mem, at, n - 1);
      S.CarriedIs(count % 0x1_0000_0000, count / 0x1_0000_0000, RegionAt(mem, at, n - 1).len);
    }
  }

  /** The freestanding memcmp, whose pointers stay at the first byte. */
  method Memcmp(s1: seq<byte>, s2: seq<byte>) returns (r: int)
    requires |s1| == |s2|
    ensures r == 0 <==> s1 == [] || s1[0] == s2[0]
  {
    for i := 0 to |s1|
      invariant i > 0 ==> s1[0] == s2[0]
    {
      if s1[0] != s2[0] {
        return s2[0] as int - s1[0] as int;
      }
    }
    return 0;
  }

  /** verify_sha256_digest returns, rather than looping forever, exactly when `accepted`. */
  method VerifyDigest(mem: Contents, regionsAt: int, digestAt: int) returns (accepted: bool)
    ensures accepted <==>
      S.DigestAs(Swept(mem, regionsAt, SHA256_REGIONS), SweptCount(mem, regionsAt, SHA256_REGIONS))[0] == mem(digestAt)
    ensures SmallRegions(mem, regionsAt) ==>
      (accepted <==> Digest(Swept(mem, regionsAt, SHA256_REGIONS))[0] == mem(digestAt))
  {
    hide S.Context.Streaming, S.Context.Counted, S.Carried, S.PadAs, S.DigestAs, Digest, RegionAt;
    if SmallRegions(mem, regionsAt) { SmallCount(mem, regionsAt, SHA256_REGIONS); }
    var ctx := new S.Context.Starts();
    for k := 0 to SHA256_REGIONS
      invariant ctx.Streaming() && fresh(ctx) && fresh(ctx.state) && fresh(ctx.buffer)
      invariant ctx.message == Swept(mem, regionsAt, k) && ctx.Tally() == SweptCount(mem, regionsAt, k)
    {
      var ptr := RegionAt(mem, regionsAt, k);
      ctx.Update(Read(mem, ptr.start, ptr.len));
    }
    var digest := ctx.Finish();
    var r := Memcmp(digest, Read(mem, digestAt, 32));
    accepted := r == 0;
  }

  /** The kernel puts the buffer of a segment at its address, and zeros behind it. */
  ghost predicate LoadedAt(mem: Contents, s: Segment)
    requires s.bufsz <= s.buf.Length
    reads s.buf
  {
    forall a :: s.mem <= a < s.mem + s.memsz ==>
      mem(a) == if a - s.mem < s.bufsz then s.buf[a - s.mem] else 0
  }

  /** Memory holds each protected segment. */
  ghost predicate Loaded(mem: Contents, segs: seq<Segment>, rel: ulong)
    requires Backed(segs)
    reads Hashed(segs, rel)
  {
    forall s :: s in segs && s.mem != rel ==> LoadedAt(mem, s)
  }

  lemma LoadedIsPadded(mem: Contents, s: Segment)
    requires s.bufsz <= s.memsz && s.bufsz <= s.buf.Length && LoadedAt(mem, s)
    ensures Read(mem, s.mem, s.memsz) == Padded(s)
  {
    var r, p := Read(mem, s.mem, s.memsz), Padded(s);
    forall i | 0 <= i < s.memsz ensures r[i] == p[i] {
      assert r[i] == mem(s.mem + i);
      assert p[i] == if i < s.bufsz then s.buf[i] else 0;
    }
  }

  lemma {:induction false} EncodedRegion(rs: seq<Region>, k: nat)
    requires k < |rs|
    ensures Encode(rs)[16 * k..16 * k + 8] == Little(rs[k].start, 8)
    ensures Encode(rs)[16 * k + 8..16 * k + 16] == Little(rs[k].len, 8)
  {
    hide Little;
    var n := |rs| - 1;
    var e := Encode(rs[..n]);
    if k < n {
      EncodedRegion(rs[..n], k);
      assert Encode(rs)[..16 * n] == e;
      assert Encode(rs)[16 * k..16 * k + 8] == e[16 * k..16 * k + 8];
      assert Encode(rs)[16 * k + 8..16 * k + 16] == e[16 * k + 8..16 * k + 16];
    }
  }

  lemma ReadPart(mem: Contents, at: int, e: seq<byte>, i: nat, n: nat)
    requires Read(mem, at, |e|) == e && i + n <= |e|
    ensures Read(mem, at + i, n) == e[i..i + n]
  {}

  lemma ReadWord(mem: Contents, at: int, n: ulong)
    requires Read(mem, at, 8) == Little(n, 8)
    ensures FromLittle(Read(mem, at, 8)) == n
  {
    hide Little, FromLittle, Pow256;
    WordWidths();
    LittleRoundTrip(n, 8);
  }

  lemma EncodedRegionReads(mem: Contents, at: int, rs: seq<Region>, k: nat)
    requires Read(mem, at, 16 * |rs|) == Encode(rs) && k < |rs|
    ensures RegionAt(mem, at, k) == rs[k]
  {
    hide Little, FromLittle, Encode, Pow256;
    EncodedRegion(rs, k);
    ReadPart(mem, at, Encode(rs), 16 * k, 8);
    ReadPart(mem, at, Encode(rs), 16 * k + 8, 8);
    ReadWord(mem, at + 16 * k, rs[k].start);
    ReadWord(mem, at + (16 * k + 8), rs[k].len);
  }

  /** Reading the protected regions of loaded memory gives back the image that was hashed. */
  lemma {:induction false} SweptIsImage(mem: Contents, at: int, segs: seq<Segment>, rel: ulong)
    requires Backed(segs) && Loaded(mem, segs, rel)
    requires forall k :: 0 <= k < |Protected(segs, rel)| ==> RegionAt(mem, at, k) == Protected(segs, rel)[k]
    ensures Swept(mem, at, |Protected(segs, rel)|) == Image(segs, rel)
  {
    hide RegionAt;
    if segs != [] {
      var n := |segs| - 1;
      var init := segs[..n];
      assert forall k :: 0 <= k < |Protected(init, rel)| ==> Protected(init, rel)[k] == Protected(segs, rel)[k];
      SweptIsImage(mem, at, init, rel);
      assert segs[n] in segs;
      if segs[n].mem != rel { LoadedIsPadded(mem, segs[n]); }
    }
  }

  lemma {:induction false} EmptyRegionsAddNothing(mem: Contents, at: int, j: nat, n: nat)
    requires j <= n && forall k :: j <= k < n ==> RegionAt(mem, at, k).len == 0
    ensures Swept(mem, at, n) == Swept(mem, at, j)
  {
    hide RegionAt;
    if j < n {
      EmptyRegionsAddNothing(mem, at, j, n - 1);
    }
  }

  /** The seal holds: purgatory hashes the image update_purgatory hashed and finds the digest it stored. Of
      purgatory's own segment only the regions and the digest are needed: its data and its stack may have changed. */
  lemma IntactImageAccepted(mem: Contents, segs: seq<Segment>, rel: ulong, image: seq<byte>, regionsAt: nat,
                            digestAt: nat)
    requires Backed(segs) && Loaded(mem, segs, rel) && |Protected(segs, rel)| <= SHA256_REGIONS
    requires Poked(segs, rel, image, regionsAt, digestAt)
    requires Read(mem, rel + regionsAt, 128) == image[regionsAt..regionsAt + 128]
    requires Read(mem, rel + digestAt, 32) == image[digestAt..digestAt + 32]
    ensures Swept(mem, rel + regionsAt, SHA256_REGIONS) == Image(segs, rel)
    ensures Read(mem, rel + digestAt, 32) == Digest(Swept(mem, rel + regionsAt, SHA256_REGIONS))
    ensures SmallRegions(mem, rel + regionsAt) <==> SmallSegments(segs, rel)
  {
    hide Digest, Encode, Image, Swept, Protected;
    var at, rs := rel + regionsAt, Full(Protected(segs, rel));
    forall k | 0 <= k < SHA256_REGIONS ensures RegionAt(mem, at, k) == rs[k] {
      EncodedRegionReads(mem, at, rs, k);
    }
    hide RegionAt;
    ProtectedLengths(segs, rel);
    SweptIsImage(mem, at, segs, rel);
    EmptyRegionsAddNothing(mem, at, |Protected(segs, rel)|, SHA256_REGIONS);
    assert SmallRegions(mem, at) <==> AllSmall(rs);
    assert rs[..|Protected(segs, rel)|] == Protected(segs, rel);
    assert AllSmall(rs) <==> AllSmall(Protected(segs, rel));
  }

  /** So purgatory returns from checking an intact image of segments below 4 GB. */
  method VerifyIntactImage(mem: Contents, segs: seq<Segment>, rel: ulong, image: seq<byte>, regionsAt: nat,
                           digestAt: nat)
    returns (accepted: bool)
    requires Backed(segs) && Loaded(mem, segs, rel) && |Protected(segs, rel)| <= SHA256_REGIONS
    requires Poked(segs, rel, image, regionsAt, digestAt) && SmallSegments(segs, rel)
    requires Read(mem, rel + regionsAt, 128) == image[regionsAt..regionsAt + 128]
    requires Read(mem, rel + digestAt, 32) == image[digestAt..digestAt + 32]
    ensures accepted
  {
    hide Digest, Swept, SweptCount, RegionAt, SmallRegions, S.DigestAs, Encode, Protected, Image, Padded, Full;
    IntactImageAccepted(mem, segs, rel, image, regionsAt, digestAt);
    assert Read(mem, rel + digestAt, 32)[0] == mem(rel + digestAt);
    accepted := VerifyDigest(mem, rel + regionsAt, rel + digestAt);
  }

  predicate SmallSegments(segs: seq<Segment>, rel: ulong) {
    forall s :: s in segs && s.mem != rel ==> s.memsz < 0x1_0000_0000
  }

  predicate AllSmall(rs: seq<Region>) {
    forall k :: 0 <= k < |rs| ==> rs[k].len < 0x1_0000_0000
  }

  lemma SmallConcat(p: seq<Region>, q: seq<Region>)
    ensures AllSmall(p + q) <==> AllSmall(p) && AllSmall(q)
  {
    assert AllSmall(p + q) ==> AllSmall(p) && AllSmall(q) by {
      assert forall k :: 0 <= k < |p| ==> (p + q)[k] == p[k];
      assert forall k :: 0 <= k < |q| ==> (p + q)[|p| + k] == q[k];
    }
  }

  lemma {:induction false} ProtectedLengths(segs: seq<Segment>, rel: ulong)
    ensures AllSmall(Protected(segs, rel)) <==> SmallSegments(segs, rel)
  {
    if segs == [] {
      assert Protected(segs, rel) == [];
    } else {
      var n := |segs| - 1;
      var init, s := segs[..n], segs[n];
      ProtectedLengths(init, rel);
      assert segs == init + [s];
      assert SmallSegments(segs, rel) <==> SmallSegments(init, rel) && (s.mem != rel ==> s.memsz < 0x1_0000_0000);
      var tail := if s.mem == rel then [] else [Region(s.mem, s.memsz)];
      assert Protected(segs, rel) == Protected(init, rel) + tail;
      SmallConcat(Protected(init, rel), tail);
      assert AllSmall(tail) <==> (s.mem != rel ==> s.memsz < 0x1_0000_0000) by {
        assert s.mem != rel ==> tail[0].len == s.memsz;
      }
    }
  }
}
