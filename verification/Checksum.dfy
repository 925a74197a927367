/** util_lib/compute_ip_checksum.c on a little-endian host, for data that starts at an even address. */
module IpChecksum {
  import opened Bits

  /** A byte in its lane of a 16-bit little-endian word. */
  function Lane(b: nat, i: nat): nat { if i % 2 == 0 then b else 0x100 * b }

  /** The words of the data added up without any folding, as if the data followed `off` other bytes; an odd last
      byte is a low byte. */
  function Total(data: seq<byte>, off: nat): nat {
    if data == [] then 0
    else
      var n := |data| - 1;
      Total(data[..n], off) + Lane(data[n], off + n)
  }

  /** The one's complement sum of section 1 of RFC 1071: the residue modulo 0xFFFF, where only an empty sum is 0. */
  function Folded(v: nat): (r: nat)
    ensures r <= 0xFFFF
  {
    if v == 0 then 0 else (v - 1) % 0xFFFF + 1
  }

  function Checksum(data: seq<byte>): (r: nat)
    ensures r <= 0xFFFF
  {
    0xFFFF - Folded(Total(data, 0))
  }

  /** End-around carry keeps the folded sum folded. */
  lemma FoldStep(v: nat, w: nat)
    requires w <= 0xFFFF
    ensures var s := Folded(v) + w;
            Folded(v + w) == Carry(s)
  {}

  method ComputeIpChecksum(data: seq<byte>) returns (r: nat)
    ensures r == Checksum(data)
  {
    var sum := 0;
    var i := 0;
    while i + 1 < |data|
      invariant i <= |data| && i % 2 == 0 && sum == Folded(Total(data[..i], 0))
    {
      AddWord(data, i);
      FoldStep(Total(data[..i], 0), Lane(data[i], 0) + Lane(data[i + 1], 1));
      sum := sum + (Lane(data[i], 0) + Lane(data[i + 1], 1));
      if sum > 0xFFFF {
        sum := sum - 0xFFFF;
      }
      i := i + 2;
    }
    assert data[..|data|] == data;
    if i < |data| {
      assert data[..|data| - 1] == data[..i];
      FoldStep(Total(data[..i], 0), Lane(data[i], 0));
      sum := sum + Lane(data[i], 0);
      if sum > 0xFFFF {
        sum := sum - 0xFFFF;
      }
    }
    r := 0xFFFF - sum;
  }

  lemma AddWord(data: seq<byte>, i: nat)
    requires i + 1 < |data| && i % 2 == 0
    ensures Total(data[..i + 2], 0) == Total(data[..i], 0) + Lane(data[i], 0) + Lane(data[i + 1], 1)
  {
    assert data[..i + 2][..i + 1] == data[..i + 1] && data[..i + 1][..i] == data[..i];
  }

  /** The end-around carry. */
  function Carry(s: nat): nat { if s > 0xFFFF then s - 0xFFFF else s }

  function Swap(x: nat): nat
    requires x <= 0xFFFF
  {
    x / 0x100 % 0x100 + x % 0x100 * 0x100
  }

  /** ~x & 0xFFFF */
  function Flip(x: nat): (r: nat)
    ensures r <= 0xFFFF
  {
    0xFFFF - x % 0x1_0000
  }

  function AddIpChecksums(offset: nat, sum: nat, new_: nat): nat {
    var s := Flip(sum);
    var n := At(offset, Flip(new_));
    Flip(Carry(s + n))
  }

  /** The sum of a piece, byte-swapped when the piece lies at an odd offset. */
  function At(offset: nat, x: nat): nat
    requires x <= 0xFFFF
  {
    if offset % 2 == 1 then Swap(x) else x
  }

  function NegateIpChecksum(sum: nat): nat {
    Flip(0xFFFF - Flip(sum))
  }

  lemma {:induction false} TotalOfConcat(a: seq<byte>, b: seq<byte>)
    ensures Total(a + b, 0) == Total(a, 0) + Total(b, |a|)
  {
    if b == [] {
      assert a + b == a;
    } else {
      var n := |b| - 1;
      TotalOfConcat(a, b[..n]);
      assert (a + b)[..|a + b| - 1] == a + b[..n];
    }
  }

  lemma {:induction false} LaneParity(data: seq<byte>, off: nat)
    ensures Total(data, off) == Total(data, off % 2)
  {
    if data != [] {
      LaneParity(data[..|data| - 1], off);
    }
  }

  predicate Congruent(v: int, w: int) { (v - w) % 0xFFFF == 0 }

  lemma Chained(u: int, v: int, w: int)
    requires Congruent(u, v) && Congruent(v, w)
    ensures Congruent(u, w) && Congruent(v, u)
  {}

  lemma Scaled(v: int, w: int)
    requires Congruent(v, w)
    ensures Congruent(0x100 * v, 0x100 * w)
  {
    ModIs(0x100 * v - 0x100 * w, 0xFFFF, 0x100 * ((v - w) / 0xFFFF), 0);
  }

  /** Moving every byte to the other lane multiplies the sum by 256, modulo 0xFFFF. */
  lemma {:induction false} OtherLane(data: seq<byte>)
    ensures Congruent(0x100 * Total(data, 0), Total(data, 1))
    ensures Total(data, 0) == 0 <==> Total(data, 1) == 0
  {
    if data != [] {
      OtherLane(data[..|data| - 1]);
    }
  }

  lemma FoldedIsResidue(v: nat, w: nat)
    requires Congruent(v, w) && (v == 0 <==> w == 0)
    ensures Folded(v) == Folded(w)
  {}

  lemma FoldedIsCongruent(v: nat)
    ensures Congruent(v, Folded(v)) && (v == 0 <==> Folded(v) == 0)
    ensures v <= 0xFFFF ==> Folded(v) == v
  {}

  lemma SwapIsTimes256(x: nat)
    requires x <= 0xFFFF
    ensures Swap(x) <= 0xFFFF && Congruent(0x100 * x, Swap(x)) && (x == 0 <==> Swap(x) == 0)
  {
    assert 0x100 * x - Swap(x) == 0xFFFF * (x / 0x100);
  }

  /** The sum of data at an odd offset is the byte-swapped sum. */
  lemma SwapFolded(data: seq<byte>)
    ensures Folded(Total(data, 1)) == Swap(Folded(Total(data, 0)))
  {
    hide Congruent, Folded, Swap, Total;
    var t, f := Total(data, 0), Folded(Total(data, 0));
    OtherLane(data);
    FoldedIsCongruent(t);
    SwapIsTimes256(f);
    FoldedIsCongruent(Swap(f));
    Scaled(t, f);
    Chained(0x100 * t, 0x100 * f, Swap(f));
    Chained(0x100 * t, Swap(f), Swap(f)) by { Same(Swap(f)); }
    Chained(Swap(f), 0x100 * t, Total(data, 1));
    FoldedIsResidue(Swap(f), Total(data, 1));
  }

  lemma Same(v: int)
    ensures Congruent(v, v)
  {}

  lemma FoldSum(v: nat, w: nat)
    ensures var s := Folded(v) + Folded(w);
            Folded(v + w) == Carry(s)
  {}

  lemma FlipIs(x: nat)
    requires x <= 0xFFFF
    ensures Flip(x) == 0xFFFF - x
  {}

  /** Checksums of two pieces combine to the checksum of the whole, also when the first piece has odd length. */
  lemma ConcatenationLaw(a: seq<byte>, b: seq<byte>)
    ensures AddIpChecksums(|a|, Checksum(a), Checksum(b)) == Checksum(a + b)
  {
    hide Folded, Swap, Total, Flip;
    TotalOfConcat(a, b);
    LaneParity(b, |a|);
    SwapFolded(b);
    FoldSum(Total(a, 0), Total(b, |a| % 2));
    FlipIs(Checksum(a));
    FlipIs(Checksum(b));
    FlipIs(Folded(Total(a + b, 0)));
  }

  lemma SwapComplement(x: nat)
    requires x <= 0xFFFF
    ensures Swap(0xFFFF - x) == 0xFFFF - Swap(x) && Swap(x) <= 0xFFFF
  {}

  lemma CarryBack(s: nat, x: nat)
    requires s <= 0xFFFF && x <= 0xFFFF
    ensures Carry(s + (0xFFFF - x)) <= 0xFFFF
    ensures Carry(Carry(s + (0xFFFF - x)) + x) == s <==> s != 0
    ensures Carry(Carry(s + (0xFFFF - x)) + x) <= 0xFFFF
  {}

  lemma SumsAdd(offset: nat, c: nat, d: nat)
    requires c <= 0xFFFF && d <= 0xFFFF
    ensures At(offset, d) <= 0xFFFF
    ensures AddIpChecksums(offset, c, d) == 0xFFFF - Carry(0xFFFF - c + (0xFFFF - At(offset, d)))
  {
    SwapComplement(d);
    hide Swap, Flip;
    FlipIs(c);
    FlipIs(d);
    FlipIs(Carry(0xFFFF - c + (0xFFFF - At(offset, d))));
  }

  /** Adding a piece and then its negation gives back every checksum but 0xFFFF. */
  lemma NegationRestores(offset: nat, c: nat, d: nat)
    requires c <= 0xFFFF && d <= 0xFFFF
    ensures AddIpChecksums(offset, AddIpChecksums(offset, c, d), NegateIpChecksum(d)) == c <==> c != 0xFFFF
  {
    FlipIs(d);
    FlipIs(0xFFFF - (0xFFFF - d));
    assert NegateIpChecksum(d) == 0xFFFF - d;
    SumsAdd(offset, c, d);
    var first := AddIpChecksums(offset, c, d);
    SumsAdd(offset, first, 0xFFFF - d);
    assert At(offset, 0xFFFF - d) == 0xFFFF - At(offset, d) by { SwapComplement(d); }
    hide At, Carry, AddIpChecksums, Flip;
    CarryBack(0xFFFF - c, At(offset, d));
  }

  /** 0xFFFF is the checksum of all-zero data and of nothing else. */
  lemma {:induction false} OnlyZerosGiveAllOnes(data: seq<byte>)
    ensures Checksum(data) == 0xFFFF <==> forall i :: 0 <= i < |data| ==> data[i] == 0
  {
    TotalZero(data);
  }

  lemma {:induction false} TotalZero(data: seq<byte>)
    ensures Total(data, 0) == 0 <==> forall i :: 0 <= i < |data| ==> data[i] == 0
  {
    if data != [] {
      var n := |data| - 1;
      TotalZero(data[..n]);
      assert forall i :: 0 <= i < n ==> data[..n][i] == data[i];
    }
  }

  lemma FieldTotal(front: seq<byte>, field: nat, back: seq<byte>)
    requires |front| % 2 == 0 && field <= 0xFFFF
    ensures Total(front + Little(field, 2) + back, 0) == Total(front + Little(0, 2) + back, 0) + field
  {
    LanesOfField(field);
    LanesOfField(0);
    forall f | f == field || f == 0
      ensures Total(front + Little(f, 2) + back, 0) == Total(front, 0) + f + Total(back, |front| + 2)
    {
      hide Little, Total;
      TotalOfConcat(front, Little(f, 2));
      TotalOfConcat(front + Little(f, 2), back);
      LaneParity(Little(f, 2), |front|);
    }
  }

  lemma LanesOfField(field: nat)
    requires field <= 0xFFFF
    ensures Total(Little(field, 2), 0) == field
  {
    var b := Little(field, 2);
    assert Little(field / 256, 1) == [field / 256 % 256] + Little(field / 256 / 256, 0);
    assert b == [field % 256, field / 256 % 256];
    assert b[..1] == [field % 256] && b[..1][..0] == [];
    assert Total(b[..1], 0) == Total(b[..1][..0], 0) + Lane(field % 256, 0);
    assert Total(b, 0) == Total(b[..1], 0) + Lane(field / 256 % 256, 1);
  }

  /** The checksum of one little-endian word is its complement. */
  lemma WordChecksum(w: nat)
    requires w <= 0xFFFF
    ensures Checksum(Little(w, 2)) == 0xFFFF - w
  {
    LanesOfField(w);
    FoldedIsCongruent(w);
    hide Little, Total, Folded, Congruent;
  }

  /** Data that holds its own checksum, computed while the field was zero, has checksum 0. */
  lemma StoredChecksumCancels(front: seq<byte>, back: seq<byte>)
    requires |front| % 2 == 0
    ensures Checksum(front + Little(Checksum(front + Little(0, 2) + back), 2) + back) == 0
  {
    var t := Total(front + Little(0, 2) + back, 0);
    FieldTotal(front, 0xFFFF - Folded(t), back);
    FoldStep(t, 0xFFFF - Folded(t));
  }
}
