/** The streaming implementation in util_lib/sha256.c, against Fips180. */
module Sha256 {
  import opened Bits
  import opened Buffers
  import opened RoundLogic
  import opened Fips180

  /** The macro P: the new values of its arguments d and h. */
  function P(a: Word, b: Word, c: Word, d: Word, e: Word, f: Word, g: Word, h: Word, x: Word, k: Word): (Word, Word) {
    var temp1 := Sum5(h, S3(e), F1(e, f, g), k, x);
    var temp2 := Add(S2(a), F0(a, b, c));
    (Add(d, temp1), Add(temp1, temp2))
  }

  /** P on registers that rotate through its argument list is one turn of the shifting loop. */
  lemma PIsTurn(a: Word, b: Word, c: Word, d: Word, e: Word, f: Word, g: Word, h: Word, x: Word, k: Word)
    ensures var p := P(a, b, c, d, e, f, g, h, x, k);
            Turn(Hash(a, b, c, d, e, f, g, h), k, x) == Hash(p.1, a, b, c, p.0, e, f, g)
  {
    hide F0, F1, S2, S3, Maj, Ch, BigSigma0, BigSigma1, Sum5, Add;
    F0IsMaj(a, b, c);
    F1IsCh(e, f, g);
    S2Is(a);
    S3Is(e);
  }

  lemma NextTurn(s: Hash, block: seq<byte>, t: nat, r: Hash)
    requires |block| == 64 && t < 64 && Turns(s, block, t) == r
    ensures var p := P(r.a, r.b, r.c, r.d, r.e, r.f, r.g, r.h, Schedule(block, t), K(t));
            Turns(s, block, t + 1) == Hash(p.1, r.a, r.b, r.c, p.0, r.e, r.f, r.g)
  {
    PIsTurn(r.a, r.b, r.c, r.d, r.e, r.f, r.g, r.h, Schedule(block, t), K(t));
    hide P, Turn, K, Schedule;
  }

  /** The byte count after an update of length n: the high word takes at most one carry. */
  function Carried(count: nat, n: nat): nat {
    var low := Word32(count + n);
    low + (count / 0x1_0000_0000 + if low < n then 1 else 0) * 0x1_0000_0000
  }

  lemma CarriedIs(total0: uint32, total1: nat, n: nat)
    ensures var count := total0 + total1 * 0x1_0000_0000;
            && count / 0x1_0000_0000 == total1 && Word32(count + n) == Word32(total0 + n)
            && (Carried(count, n) == count + n <==> total0 + n < 0x2_0000_0000)
  {}

  /** The message as sha256_finish pads it when its byte count says n. */
  function PadAs(m: seq<byte>, n: nat): (r: seq<byte>)
    ensures n == |m| ==> r == Pad(m)
  {
    m + [0x80] + Zeros(PadZeros(|m|)) + Big64(8 * n)
  }

  /** The digest sha256_finish computes for a message of which its byte count says n. */
  function DigestAs(m: seq<byte>, n: nat): (r: seq<byte>)
    ensures |r| == 32 && (n == |m| ==> r == Digest(m))
  {
    Bytes(Chain(PadAs(m, n)))
  }

  class Context {
    // total[0] holds the low 32 bits of the byte count, total[1] the rest.
    var total0: uint32
    var total1: nat
    const state: array<Word>
    const buffer: array<byte>
    ghost var message: seq<byte>

    /** The context has absorbed exactly `message`, but for the high word of the count. */
    ghost predicate Streaming()
      reads this, state, buffer
    {
      && state.Length == 8 && buffer.Length == 64
      && total0 == Word32(|message|)
      && Value() == Chain(Blocks(message))
      && buffer[..|message| % 64] == Rest(message)
    }

    /** The byte count, both words together. */
    function Tally(): nat
      reads this`total0, this`total1
    {
      total0 + total1 * 0x1_0000_0000
    }

    ghost predicate Counted()
      reads this
    {
      Tally() == |message|
    }

    ghost predicate Valid()
      reads this, state, buffer
    {
      Streaming() && Counted()
    }

    ghost predicate Shape()
    {
      state.Length == 8 && buffer.Length == 64
    }

    function Value(): Hash
      requires state.Length == 8
      reads this, state
    {
      Hash(state[0], state[1], state[2], state[3], state[4], state[5], state[6], state[7])
    }

    /** sha256_starts on fresh memory. */
    constructor Starts()
      ensures Valid() && message == [] && Tally() == 0 && fresh(state) && fresh(buffer)
    {
      hide H0, Initial, Chain, Blocks, Rest;
      EmptyMessage();
      total0, total1 := 0, 0;
      var s := Initial();
      state := new Word[] [s.a, s.b, s.c, s.d, s.e, s.f, s.g, s.h];
      buffer := new byte[64];
      message := [];
    }

    /** sha256_process. Its 64 lines repeat one register rotation every eight; the repetition is a loop here. */
    method Process(data: seq<byte>)
      requires Shape() && |data| == 64
      modifies state
      ensures Value() == Compress(old(Value()), data)
    {
      hide Turns, Schedule, Add, Compress;
      ghost var s := Value();
      var W := Load(data);
      var A, B, C, D, E, F, G, H := state[0], state[1], state[2], state[3], state[4], state[5], state[6], state[7];
      FirstTurn(s, data);
      var t := 0;
      while t < 64
        invariant t <= 64 && t % 8 == 0 && Filled(data, W, t)
        invariant Turns(s, data, t) == Hash(A, B, C, D, E, F, G, H)
        invariant Value() == s
      {
        W, A, B, C, D, E, F, G, H := FourLines(s, data, W, t, A, B, C, D, E, F, G, H);
        W, E, F, G, H, A, B, C, D := FourLines(s, data, W, t + 4, E, F, G, H, A, B, C, D);
        t := t + 8;
      }
      state[0], state[1] := Add(state[0], A), Add(state[1], B);
      state[2], state[3] := Add(state[2], C), Add(state[3], D);
      state[4], state[5] := Add(state[4], E), Add(state[5], F);
      state[6], state[7] := Add(state[6], G), Add(state[7], H);
      CompressIs(s, data);
    }

    /** `pos` bytes of `all` are in the hash value, the next `left` in the buffer, and `rest` is to come. */
    ghost predicate Midway(all: seq<byte>, pos: nat, left: nat, rest: seq<byte>)
      reads this, state, buffer
    {
      && Shape() && pos % 64 == 0 && pos <= |all| && left < 64
      && Value() == Chain(all[..pos])
      && buffer[..left] + rest == all[pos..]
      && (left > 0 ==> left + |rest| < 64)
    }

    /** Takes in any input; the count carries right exactly while at most one carry is due. */
    method Update(input: seq<byte>)
      requires Streaming()
      modifies this, state, buffer
      ensures Streaming() && message == old(message) + input && Tally() == Carried(old(Tally()), |input|)
      ensures old(Counted()) ==> (Counted() <==> old(total0) + |input| < 0x2_0000_0000)
    {
      hide Chain, Carried, Tally, Word32;
      CarriedTally(|input|);
      WordSum(|message|, |input|);
      if |input| == 0 {
        assert message + input == message;
        return;
      }
      var left := Left();
      Count(|input|);
      ghost var all := message + input;
      ghost var pos: nat := |message| - left;
      Opening(message, input);
      hide Blocks, Rest;
      var rest := input;
      if left > 0 && |input| >= 64 - left {
        rest := TopUp(all, pos, left, input);
        pos := pos + 64;
        left := 0;
      }
      pos := Drain(all, pos, left, rest);
      message := all;
      Closing(all, pos);
    }

    /** The block loop and the final copy. */
    method Drain(ghost all: seq<byte>, ghost from: nat, left: nat, input: seq<byte>) returns (ghost pos: nat)
      requires Midway(all, from, left, input)
      modifies state, buffer
      ensures pos % 64 == 0 && pos <= |all| < pos + 64
      ensures Value() == Chain(all[..pos]) && buffer[..|all| - pos] == all[pos..]
    {
      hide Chain;
      var rest := input;
      pos := from;
      while |rest| >= 64
        invariant Midway(all, pos, left, rest)
      {
        Split(all, pos, rest, 64);
        Absorb(all, pos, rest[..64]);
        rest := rest[64..];
        pos := pos + 64;
      }
      if |rest| > 0 {
        Memcpy(buffer, left, rest);
      }
    }

    /** Completes the partial block in the buffer. */
    method TopUp(ghost all: seq<byte>, ghost pos: nat, left: nat, input: seq<byte>) returns (rest: seq<byte>)
      requires Shape() && pos % 64 == 0 && pos <= |all| && left < 64 <= left + |input|
      requires Value() == Chain(all[..pos]) && buffer[..left] + input == all[pos..]
      modifies state, buffer
      ensures Midway(all, pos + 64, 0, rest)
    {
      hide Chain;
      var fill := 64 - left;
      Memcpy(buffer, left, input[..fill]);
      Split(all, pos, old(buffer[..left]) + input, 64);
      assert buffer[..] == (old(buffer[..left]) + input)[..64];
      Absorb(all, pos, buffer[..]);
      rest := input[fill..];
      assert rest == (old(buffer[..left]) + input)[64..];
    }

    /** Pads the message as the standard does, which leaves no partial block, and returns the digest. */
    method Finish() returns (digest: seq<byte>)
      requires Streaming()
      modifies this, state, buffer
      ensures Streaming() && message == PadAs(old(message), old(Tally())) && |message| % 64 == 0
      ensures digest == DigestAs(old(message), old(Tally()))
      ensures old(Counted()) ==> Valid() && message == Pad(old(message)) && digest == Digest(old(message))
    {
      hide Chain, Digest, DigestAs, Pad, PadAs, Carried, Bytes;
      ghost var m, total := message, Tally();
      var padding, msglen := Padding();
      Update(padding);
      Update(msglen);
      assert message == PadAs(m, total);
      assert Blocks(message) == message;
      DigestIs(m, total);
      hide Word32, Blocks, Rest;
      digest := Output();
    }

    /** The two pieces sha256_finish appends: its padding, and the byte count as a bit count. */
    method Padding() returns (padding: seq<byte>, msglen: seq<byte>)
      requires Streaming()
      ensures message + padding + msglen == PadAs(message, Tally()) && |PadAs(message, Tally())| % 64 == 0
      ensures |padding| <= 64 && |msglen| == 8
    {
      hide Chain, Pad, PadAs;
      var high: uint32 := (total0 / 0x2000_0000 + total1 * 8) % 0x1_0000_0000;
      var low: uint32 := total0 * 8 % 0x1_0000_0000;
      msglen := Big32(high) + Big32(low);
      var last := Left();
      var padn := if last < 56 then 56 - last else 120 - last;
      padding := ([0x80] + Zeros(63))[..padn];
      PaddingIsPad(message, total0, total1, padn, msglen);
    }

    /** The PUT_UINT32 lines that end sha256_finish. */
    method Output() returns (digest: seq<byte>)
      requires Shape()
      ensures digest == Bytes(Value())
    {
      hide Big32;
      digest := Big32(state[0].bits as int) + Big32(state[1].bits as int) + Big32(state[2].bits as int)
        + Big32(state[3].bits as int) + Big32(state[4].bits as int) + Big32(state[5].bits as int)
        + Big32(state[6].bits as int) + Big32(state[7].bits as int);
    }

    /** ctx->total[0] & 0x3F */
    method Left() returns (left: nat)
      requires Streaming()
      ensures left == |message| % 64
    {
      hide Chain, Blocks, Rest;
      LowMaskIsRemainder(total0, 64);
      LeftOver(|message|);
      left := And(total0, 0x3F);
    }

    lemma CarriedTally(n: nat)
      ensures Carried(Tally(), n) == Tally() + n <==> total0 + n < 0x2_0000_0000
      ensures Carried(Tally(), 0) == Tally()
    {
      CarriedIs(total0, total1, n);
      CarriedIs(total0, total1, 0);
    }

    /** The byte count: total[1] takes the carry out of 32 bits. */
    method Count(length: nat)
      modifies this`total0, this`total1
      ensures total0 == Word32(old(total0) + length) && Tally() == Carried(old(Tally()), length)
    {
      CarriedIs(total0, total1, length);
      total0 := Word32(total0 + length);
      if total0 < length {
        total1 := total1 + 1;
      }
    }

    method Absorb(ghost all: seq<byte>, ghost pos: nat, block: seq<byte>)
      requires Shape() && pos + 64 <= |all| && block == all[pos..pos + 64]
      requires Value() == Chain(all[..pos])
      modifies state
      ensures Value() == Chain(all[..pos + 64])
    {
      ChainNext(all, pos);
      hide Compress, Chain;
      Process(block);
    }
  }

  /** The state depends on the bytes taken in alone, not on how the updates cut them up. */
  lemma SameMessageSameState(c: Context, d: Context)
    requires c.Valid() && d.Valid() && c.message == d.message
    ensures c.total0 == d.total0 && c.total1 == d.total1 && c.Value() == d.Value()
    ensures c.buffer[..|c.message| % 64] == d.buffer[..|d.message| % 64]
  {
    hide Chain, Blocks, Rest;
  }

  /** Four lines of sha256_process, the next four being the same with the registers rotated by half. */
  method FourLines(ghost s: Hash, data: seq<byte>, w: seq<Word>, t: nat,
                   a: Word, b: Word, c: Word, d: Word, e: Word, f: Word, g: Word, h: Word)
    returns (W: seq<Word>, A: Word, B: Word, C: Word, D: Word, E: Word, F: Word, G: Word, H: Word)
    requires |data| == 64 && t + 4 <= 64 && Filled(data, w, t)
    requires Turns(s, data, t) == Hash(a, b, c, d, e, f, g, h)
    ensures Filled(data, W, t + 4)
    ensures Turns(s, data, t + 4) == Hash(E, F, G, H, A, B, C, D)
  {
    hide Turns, Schedule, P, K, Filled;
    var x, p;
    W, A, B, C, D, E, F, G, H := w, a, b, c, d, e, f, g, h;
    x, W := NextWord(data, W, t); NextTurn(s, data, t, Hash(A, B, C, D, E, F, G, H));
    p := P(A, B, C, D, E, F, G, H, x, K(t)); D, H := p.0, p.1;
    x, W := NextWord(data, W, t + 1); NextTurn(s, data, t + 1, Hash(H, A, B, C, D, E, F, G));
    p := P(H, A, B, C, D, E, F, G, x, K(t + 1)); C, G := p.0, p.1;
    x, W := NextWord(data, W, t + 2); NextTurn(s, data, t + 2, Hash(G, H, A, B, C, D, E, F));
    p := P(G, H, A, B, C, D, E, F, x, K(t + 2)); B, F := p.0, p.1;
    x, W := NextWord(data, W, t + 3); NextTurn(s, data, t + 3, Hash(F, G, H, A, B, C, D, E));
    p := P(F, G, H, A, B, C, D, E, x, K(t + 3)); A, E := p.0, p.1;
  }

  lemma DigestIs(m: seq<byte>, n: nat)
    ensures DigestAs(m, n) == Bytes(Chain(PadAs(m, n)))
  {}

  lemma LowByteKeeps(n: int, y: int, q: int)
    requires n == y + 0x100 * q
    ensures LowByte(n) == LowByte(y)
  {}

  lemma Big32Mod(n: int)
    ensures Big32(n % 0x1_0000_0000) == Big32(n)
  {
    hide LowByte;
    var q, r := n / 0x1_0000_0000, n % 0x1_0000_0000;
    LowByteKeeps(n / 0x100_0000, r / 0x100_0000, q);
    LowByteKeeps(n / 0x1_0000, r / 0x1_0000, q * 0x100);
    LowByteKeeps(n / 0x100, r / 0x100, q * 0x1_0000);
    LowByteKeeps(n, r, q * 0x100_0000);
  }

  lemma {:induction false} LengthField(total0: uint32, total1: nat)
    ensures var bits := 8 * (total0 + total1 * 0x1_0000_0000);
            Big32((total0 / 0x2000_0000 + total1 * 8) % 0x1_0000_0000) + Big32(total0 * 8 % 0x1_0000_0000)
            == Big64(bits)
  {
    var bits := 8 * (total0 + total1 * 0x1_0000_0000);
    assert bits / 0x1_0000_0000 == total0 / 0x2000_0000 + total1 * 8;
    assert bits % 0x1_0000_0000 == total0 * 8 % 0x1_0000_0000;
    Big32Mod(bits / 0x1_0000_0000);
    Big32Mod(bits);
    hide Big32;
  }

  /** The two updates of sha256_finish append exactly the padding of the standard. */
  lemma PaddingIsPad(m: seq<byte>, total0: uint32, total1: nat, padn: nat, msglen: seq<byte>)
    requires padn == if |m| % 64 < 56 then 56 - |m| % 64 else 120 - |m| % 64
    requires msglen == Big32((total0 / 0x2000_0000 + total1 * 8) % 0x1_0000_0000) + Big32(total0 * 8 % 0x1_0000_0000)
    ensures m + ([0x80] + Zeros(63))[..padn] + msglen == PadAs(m, total0 + total1 * 0x1_0000_0000)
    ensures |PadAs(m, total0 + total1 * 0x1_0000_0000)| == |Pad(m)| && |Pad(m)| % 64 == 0
  {
    LengthField(total0, total1);
    PadFillsBlocks(m);
    PadBytes(|m|, padn);
    hide Big32, Big64, PadZeros, Zeros;
    assert m + ([0x80] + Zeros(padn - 1)) + msglen == m + [0x80] + Zeros(padn - 1) + msglen;
  }

  lemma PadBytes(n: nat, padn: nat)
    requires padn == if n % 64 < 56 then 56 - n % 64 else 120 - n % 64
    ensures PadZeros(n) == padn - 1 && ([0x80] + Zeros(63))[..padn] == [0x80] + Zeros(padn - 1)
  {}

  lemma Split(all: seq<byte>, pos: nat, tail: seq<byte>, n: nat)
    requires pos <= |all| && tail == all[pos..] && n <= |tail|
    ensures tail[..n] == all[pos..pos + n] && tail[n..] == all[pos + n..]
  {}

  lemma EmptyMessage()
    ensures Chain(Blocks([])) == Initial() && Rest([]) == [] && Word32(0) == 0
  {}

  lemma {:induction false} WordSum(x: int, y: int)
    ensures Word32(Word32(x) + y) == Word32(x + y)
  {}

  lemma LeftOver(n: nat)
    ensures Word32(n) % 64 == n % 64
  {}

  lemma Closing(m: seq<byte>, pos: nat)
    requires pos <= |m| < pos + 64 && pos % 64 == 0
    ensures pos == |m| - |m| % 64 && Blocks(m) == m[..pos] && Rest(m) == m[pos..]
  {}

  lemma Opening(m: seq<byte>, input: seq<byte>)
    ensures var pos := |m| - |m| % 64;
            && pos % 64 == 0
            && (m + input)[..pos] == Blocks(m) && Rest(m) + input == (m + input)[pos..]
  {}

  lemma CompressIs(s: Hash, block: seq<byte>)
    requires |block| == 64
    ensures Compress(s, block) == Sum(s, Turns(s, block, 64))
  {}

  /** The schedule array holds the first n words, and always the first 16. */
  ghost predicate Filled(block: seq<byte>, w: seq<Word>, n: nat)
    requires |block| == 64
  {
    |w| == 64 && forall i :: 0 <= i < 64 && (i < 16 || i < n) ==> w[i] == Schedule(block, i)
  }

  lemma FirstTurn(s: Hash, block: seq<byte>)
    requires |block| == 64
    ensures Turns(s, block, 0) == s
  {}

  lemma ScheduleRule(block: seq<byte>, t: nat)
    requires |block| == 64 && 16 <= t < 64
    ensures Schedule(block, t)
      == Mix(Schedule(block, t - 2), Schedule(block, t - 7), Schedule(block, t - 15), Schedule(block, t - 16))
  {}

  /** One GET_UINT32 line. */
  function Get(data: seq<byte>, i: nat): Word
    requires i + 4 <= |data|
  {
    GetUint32(data[i] as bv8, data[i + 1] as bv8, data[i + 2] as bv8, data[i + 3] as bv8)
  }

  lemma GetIsWordAt(data: seq<byte>, i: nat)
    requires i + 4 <= |data|
    ensures Get(data, i) == WordAt(data, i)
  {
    hide GetUint32, Assembled;
    GetAssembles(data[i] as bv8, data[i + 1] as bv8, data[i + 2] as bv8, data[i + 3] as bv8);
  }

  /** The 16 GET_UINT32 lines. */
  method Load(data: seq<byte>) returns (W: seq<Word>)
    requires |data| == 64
    ensures Filled(data, W, 0)
  {
    hide WordAt, Get;
    W := [];
    for t := 0 to 16
      invariant |W| == t && forall i :: 0 <= i < t ==> W[i] == WordAt(data, 4 * i)
    {
      GetIsWordAt(data, 4 * t);
      W := W + [Get(data, 4 * t)];
    }
    W := W + seq(48, _ => Word(0));
  }

  /** The macro R: the word two, seven, fifteen and sixteen places back. */
  function R(w2: Word, w7: Word, w15: Word, w16: Word): Word {
    Sum4(S1(w2), w7, S0(w15), w16)
  }

  lemma RIsMix(w2: Word, w7: Word, w15: Word, w16: Word)
    ensures R(w2, w7, w15, w16) == Mix(w2, w7, w15, w16)
  {
    hide S0, S1, SmallSigma0, SmallSigma1, Sum4;
    S0Is(w15);
    S1Is(w2);
  }

  /** W[t], which R(t) fills in from the 17th word on. */
  method NextWord(block: seq<byte>, W: seq<Word>, t: nat) returns (x: Word, W': seq<Word>)
    requires |block| == 64 && t < 64 && Filled(block, W, t)
    ensures x == Schedule(block, t) && Filled(block, W', t + 1)
  {
    hide Mix, R, Schedule;
    W' := W;
    if t >= 16 {
      ScheduleRule(block, t);
      RIsMix(W[t - 2], W[t - 7], W[t - 15], W[t - 16]);
      W' := W[t := R(W[t - 2], W[t - 7], W[t - 15], W[t - 16])];
    }
    x := W'[t];
  }

  /** The whole blocks of a message, and what is left after them. */
  function Blocks(m: seq<byte>): (r: seq<byte>)
    ensures |r| % 64 == 0
  {
    m[..|m| - |m| % 64]
  }

  function Rest(m: seq<byte>): seq<byte> {
    m[|m| - |m| % 64..]
  }
}
