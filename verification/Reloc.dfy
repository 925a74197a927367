/** Fields cut out of words, read as two's complement. */
module Fields {
  import opened Bits

  /** Bitwise or, one binary digit at a time. */
  function Or(x: nat, y: nat): nat {
    if x == 0 && y == 0 then 0
    else (if x % 2 == 1 || y % 2 == 1 then 1 else 0) + 2 * Or(x / 2, y / 2)
  }

  lemma {:induction false} OrIsSum(x: nat, y: nat)
    requires And(x, y) == 0
    ensures Or(x, y) == x + y
  {
    if x != 0 && y != 0 {
      OrIsSum(x / 2, y / 2);
    } else if x != 0 {
      OrIsSum(x / 2, 0);
    } else if y != 0 {
      OrIsSum(0, y / 2);
    }
  }

  lemma {:induction false} MasksApart(x: nat, y: nat, m: nat, n: nat)
    requires And(m, n) == 0
    ensures And(And(x, m), And(y, n)) == 0
  {
    if x != 0 && m != 0 && y != 0 && n != 0 {
      MasksApart(x / 2, y / 2, m / 2, n / 2);
    }
  }

  function Word64(x: int): (r: nat)
    ensures r < 0x1_0000_0000_0000_0000
  {
    x % 0x1_0000_0000_0000_0000
  }

  function Signed16(x: int): int {
    if x % 0x1_0000 < 0x8000 then x % 0x1_0000 else x % 0x1_0000 - 0x1_0000
  }

  function Signed26(x: int): int {
    if x % 0x400_0000 < 0x200_0000 then x % 0x400_0000 else x % 0x400_0000 - 0x400_0000
  }

  function Signed32(x: int): int {
    if Word32(x) < 0x8000_0000 then Word32(x) else Word32(x) - 0x1_0000_0000
  }

  function Signed64(x: int): int {
    if Word64(x) < 0x8000_0000_0000_0000 then Word64(x) else Word64(x) - 0x1_0000_0000_0000_0000
  }

  /** The signed value of a field is the one number of its range that agrees with it modulo its width. */
  lemma SignedFields(x: int)
    ensures -0x8000 <= Signed16(x) < 0x8000 && (x - Signed16(x)) % 0x1_0000 == 0
    ensures -0x200_0000 <= Signed26(x) < 0x200_0000 && (x - Signed26(x)) % 0x400_0000 == 0
    ensures -0x8000_0000 <= Signed32(x) < 0x8000_0000 && (x - Signed32(x)) % 0x1_0000_0000 == 0
    ensures -0x8000_0000_0000_0000 <= Signed64(x) < 0x8000_0000_0000_0000
    ensures (x - Signed64(x)) % 0x1_0000_0000_0000_0000 == 0
  {
    SignedIs(x, 0x1_0000);
    SignedIs(x, 0x400_0000);
    SignedIs(x, 0x1_0000_0000);
    SignedIs(x, 0x1_0000_0000_0000_0000);
  }

  lemma {:induction false} SignedIs(x: int, m: int)
    requires 0 < m
    ensures 0 <= x % m < m && (x - x % m) % m == 0 && (x - (x % m - m)) % m == 0
  {
    ModIs(x - x % m, m, x / m, 0);
    ModIs(x - (x % m - m), m, x / m + 1, 0);
  }

  /** How a word lies in big-endian memory. */
  function Big(n: nat, k: nat): (b: seq<byte>)
    ensures |b| == k
  {
    if k == 0 then [] else Big(n / 256, k - 1) + [n % 256]
  }

  function FromBig(b: seq<byte>): nat {
    if b == [] then 0 else 256 * FromBig(b[..|b| - 1]) + b[|b| - 1]
  }

  /** Big-endian is little-endian backwards. */
  lemma {:induction false} BigIsReversed(n: nat, k: nat, i: nat)
    requires i < k
    ensures Big(n, k)[i] == Little(n, k)[k - 1 - i]
  {
    if i < k - 1 {
      BigIsReversed(n / 256, k - 1, i);
    }
  }

  lemma {:induction false} BigRoundTrip(n: nat, k: nat)
    ensures FromBig(Big(n, k)) == n % Pow256(k)
  {
    if k > 0 {
      BigRoundTrip(n / 256, k - 1);
      assert Big(n, k)[..k - 1] == Big(n / 256, k - 1);
      NestedRemainder(n, Pow256(k - 1));
    }
  }
}

/** machine_apply_elf_rel for 32-bit big-endian PowerPC. */
module PpcReloc {
  import opened Bits
  import opened Buffers
  import opened Fields
  import opened Kexec

  datatype Kind = ADDR32 | ADDR16_LO | ADDR16_HA | REL24 | REL32 | Unknown

  function Width(kind: Kind): nat {
    match kind
    case ADDR32 | REL24 | REL32 => 4
    case ADDR16_LO | ADDR16_HA => 2
    case Unknown => 0
  }

  /** The branch displacement an instruction word encodes: 24 bits above two flag bits, sign extended. */
  function Displacement(w: nat): int { Signed26(w - w % 4) }

  /** Every other bit of a branch instruction. */
  function Opcode(w: nat): (nat, nat) { (w / 0x400_0000, w % 4) }

  /** (w & ~0x03fffffc) | (d & 0x03fffffc). */
  function Branch(w: uint32, d: uint32): nat {
    Or(And(w, 0xffff_ffff - 0x03ff_fffc), And(d, 0x03ff_fffc))
  }

  lemma {:induction false} FieldMasks(x: uint32)
    ensures And(x, 0x03ff_fffc) == x % 0x400_0000 - x % 4
    ensures And(x, 0xfc00_0003) == x - x % 0x400_0000 + x % 4
  {
    hide And, IsPow2;
    var y := x / 4;
    MaskWidths();
    LowMaskIsRemainder(y, 0x100_0000);
    MaskClearsRemainder(y, 0x100_0000, 0x4000_0000);
    ShiftMask(x, 0xff_ffff, 0);
    ShiftMask(x, 0x3f00_0000, 3);
    ModIs(x, 0x400_0000, y / 0x100_0000, 4 * (y % 0x100_0000) + x % 4);
  }

  lemma MaskWidths()
    ensures IsPow2(0x100_0000) && IsPow2(0x4000_0000)
  {
    Pow2Product(0x100, 0x100);
    Pow2Product(0x1_0000, 0x100);
    Pow2Product(0x100_0000, 0x40);
  }

  lemma ShiftMask(x: nat, m: nat, low: nat)
    requires low == 0 || low == 3
    ensures And(x, 4 * m + low) == 4 * And(x / 4, m) + if low == 0 then 0 else x % 4
  {
    hide IsPow2;
    assert And(x, 4 * m + low) == (if x % 2 == 1 && low == 3 then 1 else 0) + 2 * And(x / 2, 2 * m + low / 2);
    assert And(x / 2, 2 * m + low / 2) == (if x / 2 % 2 == 1 && low == 3 then 1 else 0) + 2 * And(x / 2 / 2, m);
  }

  lemma {:induction false} BranchIsSum(w: uint32, d: uint32)
    ensures Branch(w, d) == w - w % 0x400_0000 + w % 4 + d % 0x400_0000 - d % 4
  {
    hide And, Or;
    FieldMasks(w);
    FieldMasks(d);
    FieldMasks(0xfc00_0003);
    MasksApart(w, d, 0xfc00_0003, 0x03ff_fffc);
    OrIsSum(And(w, 0xfc00_0003), And(d, 0x03ff_fffc));
  }

  lemma {:induction false} BranchParts(w: uint32, d: uint32)
    ensures Branch(w, d) < 0x1_0000_0000 && Opcode(Branch(w, d)) == Opcode(w)
    ensures Displacement(Branch(w, d)) == Displacement(d)
  {
    hide Branch, Signed26;
    BranchIsSum(w, d);
    var n, h, f := Branch(w, d), w / 0x400_0000, d % 0x400_0000 - d % 4;
    FieldIsAligned(d);
    assert n == 0x400_0000 * h + f + w % 4;
    ModIs(n, 0x400_0000, h, f + w % 4);
    ModIs(n, 4, 0x100_0000 * h + f / 4, w % 4);
    FieldReads(h, f);
    FieldReads(d / 0x400_0000, f);
  }

  lemma FieldIsAligned(d: uint32)
    ensures (d % 0x400_0000 - d % 4) % 4 == 0 && 0 <= d % 0x400_0000 - d % 4 <= 0x400_0000 - 4
  {
  }

  lemma FieldReads(h: nat, f: nat)
    requires f < 0x400_0000
    ensures Signed26(0x400_0000 * h + f) == if f < 0x200_0000 then f else f - 0x400_0000
  {}

  lemma DisplacementIsExact(d: uint32)
    ensures Displacement(d) == Signed32(d) <==> -0x200_0000 <= Signed32(d) < 0x200_0000 && d % 4 == 0
  {}

  /** The patched instruction keeps opcode and flags, and branches from address to value exactly when the distance
      is within reach and word aligned. */
  lemma BranchReaches(w: uint32, value: uint32, address: uint32)
    ensures Opcode(Branch(w, Word32(value - address))) == Opcode(w)
    ensures Displacement(Branch(w, Word32(value - address))) == Signed32(value - address)
      <==> -0x200_0000 <= Signed32(value - address) < 0x200_0000 && (value - address) % 4 == 0
  {
    hide Branch, Displacement, Opcode;
    var d := Word32(value - address);
    assert Signed32(d) == Signed32(value - address);
    assert (value - address) % 4 == d % 4;
    BranchParts(w, d);
    DisplacementIsExact(d);
  }

  lemma {:induction false} HighIs(value: uint32)
    ensures High(value) == (value / 0x1_0000 + if value % 0x1_0000 < 0x8000 then 0 else 1) % 0x1_0000
  {}

  /** The two halves the ABI splits an address into add up to it: the high half makes up for the low half's sign. */
  lemma HalvesRecover(value: uint32)
    ensures Word32(High(value) * 0x1_0000 + Signed16(Low(value))) == value
  {
    hide High;
    HighIs(value);
    var h, l := value / 0x1_0000, value % 0x1_0000;
    assert value == 0x1_0000 * h + l && h < 0x1_0000;
    assert Signed16(Low(value)) == if l < 0x8000 then l else l - 0x1_0000;
    hide Low, Signed16;
    var c := if l < 0x8000 then 0 else 1;
    if h + c == 0x1_0000 {
      assert High(value) == 0;
    } else {
      assert High(value) == h + c;
    }
  }

  function Low(value: uint32): (r: nat)
    ensures r < 0x1_0000
  {
    value % 0x1_0000
  }

  /** (value + 0x8000) >> 16, cut to 16 bits. */
  function High(value: uint32): (r: nat)
    ensures r < 0x1_0000
  {
    Word32(value + 0x8000) / 0x1_0000 % 0x1_0000
  }

  /** The distance from address to value is one a branch can hold. */
  predicate InReach(value: uint32, address: uint32) { -0x200_0000 <= Signed32(value - address) < 0x200_0000 }

  /** The field that was w is now n, and means value as the processor takes it. */
  predicate Patched(kind: Kind, w: nat, n: nat, address: uint32, value: uint32) {
    match kind
    case ADDR32 => n == value
    case ADDR16_LO => n == Low(value)
    case ADDR16_HA => n == High(value)
    case REL32 => Word32(address + n) == value
    case REL24 => Opcode(n) == Opcode(w) && ((value - address) % 4 == 0 ==> Word32(address + Displacement(n)) == value)
    case Unknown => false
  }

  lemma SignedReaches(value: uint32, address: uint32)
    ensures Word32(address + Signed32(value - address)) == value
    ensures Word32(address + Word32(value - address)) == value
  {
  }

  lemma BranchIsPatched(w: uint32, address: uint32, value: uint32)
    requires InReach(value, address)
    ensures Branch(w, Word32(value - address)) < 0x1_0000_0000
    ensures Patched(REL24, w, Branch(w, Word32(value - address)), address, value)
  {
    hide Branch, Displacement, Opcode, Word32, Signed32;
    BranchReaches(w, value, address);
    BranchParts(w, Word32(value - address));
    SignedReaches(value, address);
  }

  /** It dies exactly on an unknown type and on a branch out of reach. */
  method ApplyElfRel(buf: array<byte>, kind: Kind, location: nat, address: uint32, value: uint32)
    returns (r: Outcome<()>)
    requires location + Width(kind) <= buf.Length
    modifies buf
    ensures r.Die? <==> kind == Unknown || (kind == REL24 && !InReach(value, address))
    ensures r.Die? ==> buf[..] == old(buf[..])
    ensures buf[..location] == old(buf[..location])
    ensures buf[location + Width(kind)..] == old(buf[location + Width(kind)..])
    ensures r.Ok? ==> Patched(kind, FromBig(old(buf[location..location + Width(kind)])),
      FromBig(buf[location..location + Width(kind)]), address, value)
  {
    hide Branch, Displacement, Opcode, Word32, Signed32, Big, Pow256, InReach, FromBig, High, Low;
    SignedReaches(value, address);
    WordWidths();
    var field: nat;
    match kind {
      case ADDR32 => field := value;
      case ADDR16_LO => field := Low(value);
      case ADDR16_HA => field := High(value);
      case REL24 =>
        if !InReach(value, address) {
          return Die;
        }
        BigRange(buf[location..location + 4]);
        var w: uint32 := FromBig(buf[location..location + 4]);
        BranchIsPatched(w, address, value);
        field := Branch(w, Word32(value - address));
      case REL32 => field := Word32(value - address);
      case Unknown => return Die;
    }
    Memcpy(buf, location, Big(field, Width(kind)));
    assert buf[location..location + Width(kind)] == Big(field, Width(kind));
    BigFits(field, Width(kind));
    r := Ok(());
  }

  lemma {:induction false} BigFits(n: nat, k: nat)
    ensures n < Pow256(k) ==> FromBig(Big(n, k)) == n
  {
    hide Big, FromBig, Pow256;
    BigRoundTrip(n, k);
    if n < Pow256(k) {
      ModIs(n, Pow256(k), 0, n);
    }
  }

  lemma {:induction false} BigRange(b: seq<byte>)
    ensures FromBig(b) < Pow256(|b|)
  {
    if b != [] {
      BigRange(b[..|b| - 1]);
    }
  }
}

/** machine_apply_elf_rel for x86-64, little-endian with 64-bit addresses. */
module X86_64Reloc {
  import opened Bits
  import opened Buffers
  import opened Fields
  import opened Kexec

  datatype Kind = NONE | R64 | R32 | R32S | PC32 | Unknown

  function Width(kind: Kind): nat {
    match kind
    case R64 => 8
    case R32 | R32S | PC32 => 4
    case NONE | Unknown => 0
  }

  /** The 64-bit value the processor computes from the field: it widens by zero or by sign, and adds the program
      counter where the field is relative. */
  function Meaning(kind: Kind, field: nat, address: ulong): nat {
    match kind
    case R64 => Word64(field)
    case R32 => Word32(field)
    case R32S => Word64(Signed32(field))
    case PC32 => Word64(address + Signed32(field))
    case NONE | Unknown => 0
  }

  /** No field of that kind means value. */
  ghost predicate Unencodable(kind: Kind, address: ulong, value: ulong) {
    forall field: nat :: Meaning(kind, field, address) != value
  }

  /** The overflow checks refuse just the values their field cannot hold. */
  lemma OverflowIsUnencodable(value: ulong, address: ulong)
    ensures Unencodable(R32, address, value) <==> value != Word32(value)
    ensures Unencodable(R32S, address, value) <==> Signed64(value) != Signed32(value)
  {
    ZeroExtends(value, address);
    SignExtends(value, address);
    hide Unencodable, Word32, Signed32, Signed64;
  }

  lemma ZeroExtends(value: ulong, address: ulong)
    ensures Unencodable(R32, address, value) <==> value != Word32(value)
  {
    assert Meaning(R32, value, address) == Word32(value);
    assert forall field: nat :: Word32(Meaning(R32, field, address)) == Meaning(R32, field, address);
  }

  lemma SignExtends(value: ulong, address: ulong)
    ensures Unencodable(R32S, address, value) <==> Signed64(value) != Signed32(value)
  {
    assert Meaning(R32S, value, address) == Word64(Signed32(value));
    forall field: nat ensures Signed64(Meaning(R32S, field, address)) == Signed32(Meaning(R32S, field, address)) {
      SignedFits(field);
    }
    WordOfSigned(value);
    hide Word64, Signed32, Signed64;
  }

  lemma SignedFits(field: nat)
    ensures Signed64(Word64(Signed32(field))) == Signed32(Word64(Signed32(field)))
  {}

  lemma WordOfSigned(value: ulong)
    ensures Word64(Signed32(value)) == value <==> Signed64(value) == Signed32(value)
  {}

  /** A relative field has no check: it reaches value exactly when the distance fits in 31 bits and a sign. */
  lemma RelativeReaches(value: ulong, address: ulong)
    ensures Meaning(PC32, Word32(value - address), address) == value
      <==> -0x8000_0000 <= Signed64(value - address) < 0x8000_0000
  {
    NarrowDistance(value - address);
    DistanceReaches(value, address, Signed32(value - address));
    hide Signed32, Signed64, Word32, Word64;
  }

  lemma NarrowDistance(d: int)
    ensures Signed32(d) == Signed64(d) <==> -0x8000_0000 <= Signed64(d) < 0x8000_0000
    ensures Signed32(Word32(d)) == Signed32(d) && -0x8000_0000 <= Signed32(d) < 0x8000_0000
  {
    LowWord(d);
    NarrowWord(Word64(d));
    hide Word32, Word64;
  }

  lemma LowWord(d: int)
    ensures Word32(Word64(d)) == Word32(d) && Word32(Word32(d)) == Word32(d) && Word64(Word64(d)) == Word64(d)
  {}

  lemma NarrowWord(w: ulong)
    ensures Signed32(w) == Signed64(w) <==> -0x8000_0000 <= Signed64(w) < 0x8000_0000
  {}

  lemma DistanceReaches(value: ulong, address: ulong, d: int)
    requires -0x8000_0000 <= d < 0x8000_0000
    ensures Word64(address + d) == value <==> d == Signed64(value - address)
  {}

  method ApplyElfRel(buf: array<byte>, kind: Kind, location: nat, address: ulong, value: ulong) returns (r: Outcome<()>)
    requires location + Width(kind) <= buf.Length
    modifies buf
    ensures r.Die? <==> kind == Unknown || (kind in {R32, R32S} && Unencodable(kind, address, value))
    ensures buf[..location] == old(buf[..location])
    ensures buf[location + Width(kind)..] == old(buf[location + Width(kind)..])
    ensures r.Ok? && kind in {R64, R32, R32S} ==>
      Meaning(kind, FromLittle(buf[location..location + Width(kind)]), address) == value
    ensures r.Ok? && kind == PC32 ==> FromLittle(buf[location..location + 4]) == Word32(value - address)
  {
    hide Little, FromLittle, Pow256, Signed32, Signed64, Word32, Word64, Unencodable, Meaning;
    OverflowIsUnencodable(value, address);
    if kind == NONE {
      return Ok(());
    } else if kind == Unknown {
      return Die;
    }
    var field: nat := if kind == PC32 then Word64(value - address) else value;
    Memcpy(buf, location, Little(field, Width(kind)));
    assert buf[location..location + Width(kind)] == Little(field, Width(kind));
    Written(kind, value, address);
    var word := FromLittle(buf[location..location + Width(kind)]);
    if (kind == R32 && value != word) || (kind == R32S && Signed64(value) != Signed32(word)) {
      return Die;
    }
    r := Ok(());
  }

  /** What the stored bytes mean: an accepted value whole, a distance cut to 32 bits. */
  lemma Written(kind: Kind, value: ulong, address: ulong)
    ensures FromLittle(Little(value, 8)) == Meaning(R64, value, address) == value
    ensures FromLittle(Little(value, 4)) == Word32(value)
    ensures FromLittle(Little(Word64(value - address), 4)) == Word32(value - address)
    ensures value == Word32(value) ==> Meaning(R32, Word32(value), address) == value
    ensures Signed32(Word32(value)) == Signed32(value)
    ensures Signed64(value) == Signed32(value) ==> Meaning(R32S, Word32(value), address) == value
  {
    hide Little, FromLittle, Pow256;
    LittleRoundTrip(value, 8);
    LittleRoundTrip(value, 4);
    LittleRoundTrip(Word64(value - address), 4);
    WordWidths();
  }
}
