/** The one-block example of appendix B.1 of FIPS 180-2: the digest of "abc". */
module Fips180Example {
  import opened Bits
  import opened RoundLogic
  import opened Fips180

  const ABC: seq<byte> := [0x61, 0x62, 0x63]

  function Block(): (b: seq<byte>)
    ensures |b| == 64
  {
    ABC + [0x80] + Zeros(59) + [0x18]
  }

  lemma PaddedAbc()
    ensures Pad(ABC) == Block()
  {
    assert PadZeros(3) == 52;
    assert Big64(24) == Zeros(7) + [0x18];
    assert Zeros(52) + Zeros(7) == Zeros(59);
  }

  /** ws is a message schedule after its first 16 words. */
  ghost predicate Scheduled(ws: seq<Word>) {
    |ws| == 64 && forall t :: 16 <= t < 64 ==> ScheduledAt(ws, t)
  }

  ghost predicate ScheduledAt(ws: seq<Word>, t: nat)
    requires 16 <= t < |ws|
  {
    ws[t] == Mix(ws[t - 2], ws[t - 7], ws[t - 15], ws[t - 16])
  }

  /** hs are the states before, between and after the 64 turns with the schedule ws. */
  ghost predicate Turned(hs: seq<Hash>, ws: seq<Word>) {
    |hs| == 65 && |ws| == 64 && forall t :: 0 <= t < 64 ==> TurnedAt(hs, ws, t)
  }

  ghost predicate TurnedAt(hs: seq<Hash>, ws: seq<Word>, t: nat)
    requires t < 64 && |hs| == 65 && |ws| == 64
  {
    hs[t + 1] == Turn(hs[t], K(t), ws[t])
  }

  /** One turn: the new values of the working variables a and e; the others shift. */
  lemma Next(hs: seq<Hash>, ws: seq<Word>, t: nat, s: Hash, a: bv32, e: bv32) returns (s': Hash)
    requires t < 64 && |hs| == 65 && |ws| == 64 && TurnedAt(hs, ws, t) && hs[t] == s
    requires Turn(s, K(t), ws[t]) == Hash(Word(a), s.a, s.b, s.c, Word(e), s.e, s.f, s.g)
    ensures s' == Hash(Word(a), s.a, s.b, s.c, Word(e), s.e, s.f, s.g) && hs[t + 1] == s'
  {
    s' := hs[t + 1];
  }

  lemma Mixes16()
    ensures Mix(Word(0x0000_0000), Word(0x0000_0000), Word(0x0000_0000), Word(0x6162_6380)) == Word(0x6162_6380)
    ensures Mix(Word(0x0000_0018), Word(0x0000_0000), Word(0x0000_0000), Word(0x0000_0000)) == Word(0x000F_0000)
    ensures Mix(Word(0x6162_6380), Word(0x0000_0000), Word(0x0000_0000), Word(0x0000_0000)) == Word(0x7DA8_6405)
    ensures Mix(Word(0x000F_0000), Word(0x0000_0000), Word(0x0000_0000), Word(0x0000_0000)) == Word(0x6000_03C6)
    ensures Mix(Word(0x7DA8_6405), Word(0x0000_0000), Word(0x0000_0000), Word(0x0000_0000)) == Word(0x3E9D_7B78)
    ensures Mix(Word(0x6000_03C6), Word(0x0000_0000), Word(0x0000_0000), Word(0x0000_0000)) == Word(0x0183_FC00)
    ensures Mix(Word(0x3E9D_7B78), Word(0x0000_0018), Word(0x0000_0000), Word(0x0000_0000)) == Word(0x12DC_BFDB)
    ensures Mix(Word(0x0183_FC00), Word(0x6162_6380), Word(0x0000_0000), Word(0x0000_0000)) == Word(0xE2E2_C38E)
  {}

  lemma Words16(ws: seq<Word>)
    requires Scheduled(ws)
    requires ws[0..8] == [Word(0x6162_6380), Word(0x0000_0000), Word(0x0000_0000), Word(0x0000_0000),
                          Word(0x0000_0000), Word(0x0000_0000), Word(0x0000_0000), Word(0x0000_0000)]
    requires ws[8..16] == [Word(0x0000_0000), Word(0x0000_0000), Word(0x0000_0000), Word(0x0000_0000),
                           Word(0x0000_0000), Word(0x0000_0000), Word(0x0000_0000), Word(0x0000_0018)]
    ensures ws[16..24] == [Word(0x6162_6380), Word(0x000F_0000), Word(0x7DA8_6405), Word(0x6000_03C6),
                           Word(0x3E9D_7B78), Word(0x0183_FC00), Word(0x12DC_BFDB), Word(0xE2E2_C38E)]
  {
    hide Mix;
    Mixes16();
    assert ScheduledAt(ws, 16) && ScheduledAt(ws, 17) && ScheduledAt(ws, 18) && ScheduledAt(ws, 19);
    assert ScheduledAt(ws, 20) && ScheduledAt(ws, 21) && ScheduledAt(ws, 22) && ScheduledAt(ws, 23);
  }

  lemma Mixes24()
    ensures Mix(Word(0x12DC_BFDB), Word(0x000F_0000), Word(0x0000_0000), Word(0x0000_0000)) == Word(0xC821_5C1A)
    ensures Mix(Word(0xE2E2_C38E), Word(0x7DA8_6405), Word(0x0000_0000), Word(0x0000_0000)) == Word(0xB736_79A2)
    ensures Mix(Word(0xC821_5C1A), Word(0x6000_03C6), Word(0x0000_0000), Word(0x0000_0000)) == Word(0xE5BC_3909)
    ensures Mix(Word(0xB736_79A2), Word(0x3E9D_7B78), Word(0x0000_0000), Word(0x0000_0000)) == Word(0x3266_3C5B)
    ensures Mix(Word(0xE5BC_3909), Word(0x0183_FC00), Word(0x0000_0000), Word(0x0000_0000)) == Word(0x9D20_9D67)
    ensures Mix(Word(0x3266_3C5B), Word(0x12DC_BFDB), Word(0x0000_0000), Word(0x0000_0000)) == Word(0xEC87_26CB)
    ensures Mix(Word(0x9D20_9D67), Word(0xE2E2_C38E), Word(0x0000_0018), Word(0x0000_0000)) == Word(0x7021_38A4)
    ensures Mix(Word(0xEC87_26CB), Word(0xC821_5C1A), Word(0x6162_6380), Word(0x0000_0018)) == Word(0xD3B7_973B)
  {}

  lemma Words24(ws: seq<Word>)
    requires Scheduled(ws)
    requires ws[8..16] == [Word(0x0000_0000), Word(0x0000_0000), Word(0x0000_0000), Word(0x0000_0000),
                           Word(0x0000_0000), Word(0x0000_0000), Word(0x0000_0000), Word(0x0000_0018)]
    requires ws[16..24] == [Word(0x6162_6380), Word(0x000F_0000), Word(0x7DA8_6405), Word(0x6000_03C6),
                            Word(0x3E9D_7B78), Word(0x0183_FC00), Word(0x12DC_BFDB), Word(0xE2E2_C38E)]
    ensures ws[24..32] == [Word(0xC821_5C1A), Word(0xB736_79A2), Word(0xE5BC_3909), Word(0x3266_3C5B),
                           Word(0x9D20_9D67), Word(0xEC87_26CB), Word(0x7021_38A4), Word(0xD3B7_973B)]
  {
    hide Mix;
    Mixes24();
    assert ScheduledAt(ws, 24) && ScheduledAt(ws, 25) && ScheduledAt(ws, 26) && ScheduledAt(ws, 27);
    assert ScheduledAt(ws, 28) && ScheduledAt(ws, 29) && ScheduledAt(ws, 30) && ScheduledAt(ws, 31);
  }

  lemma Mixes32()
    ensures Mix(Word(0x7021_38A4), Word(0xB736_79A2), Word(0x000F_0000), Word(0x6162_6380)) == Word(0x93F5_997F)
    ensures Mix(Word(0xD3B7_973B), Word(0xE5BC_3909), Word(0x7DA8_6405), Word(0x000F_0000)) == Word(0x3B68_BA73)
    ensures Mix(Word(0x93F5_997F), Word(0x3266_3C5B), Word(0x6000_03C6), Word(0x7DA8_6405)) == Word(0xAFF4_FFC1)
    ensures Mix(Word(0x3B68_BA73), Word(0x9D20_9D67), Word(0x3E9D_7B78), Word(0x6000_03C6)) == Word(0xF10A_5C62)
    ensures Mix(Word(0xAFF4_FFC1), Word(0xEC87_26CB), Word(0x0183_FC00), Word(0x3E9D_7B78)) == Word(0x0A8B_3996)
    ensures Mix(Word(0xF10A_5C62), Word(0x7021_38A4), Word(0x12DC_BFDB), Word(0x0183_FC00)) == Word(0x72AF_830A)
    ensures Mix(Word(0x0A8B_3996), Word(0xD3B7_973B), Word(0xE2E2_C38E), Word(0x12DC_BFDB)) == Word(0x9409_E33E)
    ensures Mix(Word(0x72AF_830A), Word(0x93F5_997F), Word(0xC821_5C1A), Word(0xE2E2_C38E)) == Word(0x2464_1522)
  {}

  lemma Words32(ws: seq<Word>)
    requires Scheduled(ws)
    requires ws[16..24] == [Word(0x6162_6380), Word(0x000F_0000), Word(0x7DA8_6405), Word(0x6000_03C6),
                            Word(0x3E9D_7B78), Word(0x0183_FC00), Word(0x12DC_BFDB), Word(0xE2E2_C38E)]
    requires ws[24..32] == [Word(0xC821_5C1A), Word(0xB736_79A2), Word(0xE5BC_3909), Word(0x3266_3C5B),
                            Word(0x9D20_9D67), Word(0xEC87_26CB), Word(0x7021_38A4), Word(0xD3B7_973B)]
    ensures ws[32..40] == [Word(0x93F5_997F), Word(0x3B68_BA73), Word(0xAFF4_FFC1), Word(0xF10A_5C62),
                           Word(0x0A8B_3996), Word(0x72AF_830A), Word(0x9409_E33E), Word(0x2464_1522)]
  {
    hide Mix;
    Mixes32();
    assert ScheduledAt(ws, 32) && ScheduledAt(ws, 33) && ScheduledAt(ws, 34) && ScheduledAt(ws, 35);
    assert ScheduledAt(ws, 36) && ScheduledAt(ws, 37) && ScheduledAt(ws, 38) && ScheduledAt(ws, 39);
  }

  lemma Mixes40()
    ensures Mix(Word(0x9409_E33E), Word(0x3B68_BA73), Word(0xB736_79A2), Word(0xC821_5C1A)) == Word(0x9F47_BF94)
    ensures Mix(Word(0x2464_1522), Word(0xAFF4_FFC1), Word(0xE5BC_3909), Word(0xB736_79A2)) == Word(0xF0A6_4F5A)
    ensures Mix(Word(0x9F47_BF94), Word(0xF10A_5C62), Word(0x3266_3C5B), Word(0xE5BC_3909)) == Word(0x3E24_6A79)
    ensures Mix(Word(0xF0A6_4F5A), Word(0x0A8B_3996), Word(0x9D20_9D67), Word(0x3266_3C5B)) == Word(0x2733_3BA3)
    ensures Mix(Word(0x3E24_6A79), Word(0x72AF_830A), Word(0xEC87_26CB), Word(0x9D20_9D67)) == Word(0x0C47_63F2)
    ensures Mix(Word(0x2733_3BA3), Word(0x9409_E33E), Word(0x7021_38A4), Word(0xEC87_26CB)) == Word(0x840A_BF27)
    ensures Mix(Word(0x0C47_63F2), Word(0x2464_1522), Word(0xD3B7_973B), Word(0x7021_38A4)) == Word(0x7A29_0D5D)
    ensures Mix(Word(0x840A_BF27), Word(0x9F47_BF94), Word(0x93F5_997F), Word(0xD3B7_973B)) == Word(0x065C_43DA)
  {}

  lemma Words40(ws: seq<Word>)
    requires Scheduled(ws)
    requires ws[24..32] == [Word(0xC821_5C1A), Word(0xB736_79A2), Word(0xE5BC_3909), Word(0x3266_3C5B),
                            Word(0x9D20_9D67), Word(0xEC87_26CB), Word(0x7021_38A4), Word(0xD3B7_973B)]
    requires ws[32..40] == [Word(0x93F5_997F), Word(0x3B68_BA73), Word(0xAFF4_FFC1), Word(0xF10A_5C62),
                            Word(0x0A8B_3996), Word(0x72AF_830A), Word(0x9409_E33E), Word(0x2464_1522)]
    ensures ws[40..48] == [Word(0x9F47_BF94), Word(0xF0A6_4F5A), Word(0x3E24_6A79), Word(0x2733_3BA3),
                           Word(0x0C47_63F2), Word(0x840A_BF27), Word(0x7A29_0D5D), Word(0x065C_43DA)]
  {
    hide Mix;
    Mixes40();
    assert ScheduledAt(ws, 40) && ScheduledAt(ws, 41) && ScheduledAt(ws, 42) && ScheduledAt(ws, 43);
    assert ScheduledAt(ws, 44) && ScheduledAt(ws, 45) && ScheduledAt(ws, 46) && ScheduledAt(ws, 47);
  }

  lemma Mixes48()
    ensures Mix(Word(0x7A29_0D5D), Word(0xF0A6_4F5A), Word(0x3B68_BA73), Word(0x93F5_997F)) == Word(0xFB3E_89CB)
    ensures Mix(Word(0x065C_43DA), Word(0x3E24_6A79), Word(0xAFF4_FFC1), Word(0x3B68_BA73)) == Word(0xCC76_17DB)
    ensures Mix(Word(0xFB3E_89CB), Word(0x2733_3BA3), Word(0xF10A_5C62), Word(0xAFF4_FFC1)) == Word(0xB9E6_6C34)
    ensures Mix(Word(0xCC76_17DB), Word(0x0C47_63F2), Word(0x0A8B_3996), Word(0xF10A_5C62)) == Word(0xA999_3667)
    ensures Mix(Word(0xB9E6_6C34), Word(0x840A_BF27), Word(0x72AF_830A), Word(0x0A8B_3996)) == Word(0x84BA_DEDD)
    ensures Mix(Word(0xA999_3667), Word(0x7A29_0D5D), Word(0x9409_E33E), Word(0x72AF_830A)) == Word(0xC214_62BC)
    ensures Mix(Word(0x84BA_DEDD), Word(0x065C_43DA), Word(0x2464_1522), Word(0x9409_E33E)) == Word(0x1487_472C)
    ensures Mix(Word(0xC214_62BC), Word(0xFB3E_89CB), Word(0x9F47_BF94), Word(0x2464_1522)) == Word(0xB20F_7A99)
  {}

  lemma Words48(ws: seq<Word>)
    requires Scheduled(ws)
    requires ws[32..40] == [Word(0x93F5_997F), Word(0x3B68_BA73), Word(0xAFF4_FFC1), Word(0xF10A_5C62),
                            Word(0x0A8B_3996), Word(0x72AF_830A), Word(0x9409_E33E), Word(0x2464_1522)]
    requires ws[40..48] == [Word(0x9F47_BF94), Word(0xF0A6_4F5A), Word(0x3E24_6A79), Word(0x2733_3BA3),
                            Word(0x0C47_63F2), Word(0x840A_BF27), Word(0x7A29_0D5D), Word(0x065C_43DA)]
    ensures ws[48..56] == [Word(0xFB3E_89CB), Word(0xCC76_17DB), Word(0xB9E6_6C34), Word(0xA999_3667),
                           Word(0x84BA_DEDD), Word(0xC214_62BC), Word(0x1487_472C), Word(0xB20F_7A99)]
  {
    hide Mix;
    Mixes48();
    assert ScheduledAt(ws, 48) && ScheduledAt(ws, 49) && ScheduledAt(ws, 50) && ScheduledAt(ws, 51);
    assert ScheduledAt(ws, 52) && ScheduledAt(ws, 53) && ScheduledAt(ws, 54) && ScheduledAt(ws, 55);
  }

  lemma Mixes56()
    ensures Mix(Word(0x1487_472C), Word(0xCC76_17DB), Word(0xF0A6_4F5A), Word(0x9F47_BF94)) == Word(0xEF57_B9CD)
    ensures Mix(Word(0xB20F_7A99), Word(0xB9E6_6C34), Word(0x3E24_6A79), Word(0xF0A6_4F5A)) == Word(0xEBE6_B238)
    ensures Mix(Word(0xEF57_B9CD), Word(0xA999_3667), Word(0x2733_3BA3), Word(0x3E24_6A79)) == Word(0x9FE3_095E)
    ensures Mix(Word(0xEBE6_B238), Word(0x84BA_DEDD), Word(0x0C47_63F2), Word(0x2733_3BA3)) == Word(0x78BC_8D4B)
    ensures Mix(Word(0x9FE3_095E), Word(0xC214_62BC), Word(0x840A_BF27), Word(0x0C47_63F2)) == Word(0xA43F_CF15)
    ensures Mix(Word(0x78BC_8D4B), Word(0x1487_472C), Word(0x7A29_0D5D), Word(0x840A_BF27)) == Word(0x668B_2FF8)
    ensures Mix(Word(0xA43F_CF15), Word(0xB20F_7A99), Word(0x065C_43DA), Word(0x7A29_0D5D)) == Word(0xEEAB_A2CC)
    ensures Mix(Word(0x668B_2FF8), Word(0xEF57_B9CD), Word(0xFB3E_89CB), Word(0x065C_43DA)) == Word(0x12B1_EDEB)
  {}

  lemma Words56(ws: seq<Word>)
    requires Scheduled(ws)
    requires ws[40..48] == [Word(0x9F47_BF94), Word(0xF0A6_4F5A), Word(0x3E24_6A79), Word(0x2733_3BA3),
                            Word(0x0C47_63F2), Word(0x840A_BF27), Word(0x7A29_0D5D), Word(0x065C_43DA)]
    requires ws[48..56] == [Word(0xFB3E_89CB), Word(0xCC76_17DB), Word(0xB9E6_6C34), Word(0xA999_3667),
                            Word(0x84BA_DEDD), Word(0xC214_62BC), Word(0x1487_472C), Word(0xB20F_7A99)]
    ensures ws[56..64] == [Word(0xEF57_B9CD), Word(0xEBE6_B238), Word(0x9FE3_095E), Word(0x78BC_8D4B),
                           Word(0xA43F_CF15), Word(0x668B_2FF8), Word(0xEEAB_A2CC), Word(0x12B1_EDEB)]
  {
    hide Mix;
    Mixes56();
    assert ScheduledAt(ws, 56) && ScheduledAt(ws, 57) && ScheduledAt(ws, 58) && ScheduledAt(ws, 59);
    assert ScheduledAt(ws, 60) && ScheduledAt(ws, 61) && ScheduledAt(ws, 62) && ScheduledAt(ws, 63);
  }

  lemma Turns0(hs: seq<Hash>, ws: seq<Word>)
    requires Turned(hs, ws)
    requires hs[0] == Hash(Word(0x6A09_E667), Word(0xBB67_AE85), Word(0x3C6E_F372), Word(0xA54F_F53A),
                           Word(0x510E_527F), Word(0x9B05_688C), Word(0x1F83_D9AB), Word(0x5BE0_CD19))
    requires ws[0..8] == [Word(0x6162_6380), Word(0x0000_0000), Word(0x0000_0000), Word(0x0000_0000),
                          Word(0x0000_0000), Word(0x0000_0000), Word(0x0000_0000), Word(0x0000_0000)]
    ensures hs[8] == Hash(Word(0x85A0_7B5F), Word(0xE503_0380), Word(0x2B42_09F5), Word(0x0440_9A6A),
                          Word(0x0C65_7A79), Word(0x9B27_A401), Word(0x7142_60AD), Word(0x43AD_A245))
  {
    hide TurnedAt;
    var s := hs[0];
    s := Next(hs, ws, 0, s, 0x5D6A_EBCD, 0xFA2A_4622);
    s := Next(hs, ws, 1, s, 0x5A6A_D9AD, 0x78CE_7989);
    s := Next(hs, ws, 2, s, 0xC8C3_47A7, 0xF929_39EB);
    s := Next(hs, ws, 3, s, 0xD550_F666, 0x24E0_0850);
    s := Next(hs, ws, 4, s, 0x0440_9A6A, 0x43AD_A245);
    s := Next(hs, ws, 5, s, 0x2B42_09F5, 0x7142_60AD);
    s := Next(hs, ws, 6, s, 0xE503_0380, 0x9B27_A401);
    s := Next(hs, ws, 7, s, 0x85A0_7B5F, 0x0C65_7A79);
  }

  lemma Turns1(hs: seq<Hash>, ws: seq<Word>)
    requires Turned(hs, ws)
    requires hs[8] == Hash(Word(0x85A0_7B5F), Word(0xE503_0380), Word(0x2B42_09F5), Word(0x0440_9A6A),
                           Word(0x0C65_7A79), Word(0x9B27_A401), Word(0x7142_60AD), Word(0x43AD_A245))
    requires ws[8..16] == [Word(0x0000_0000), Word(0x0000_0000), Word(0x0000_0000), Word(0x0000_0000),
                           Word(0x0000_0000), Word(0x0000_0000), Word(0x0000_0000), Word(0x0000_0018)]
    ensures hs[16] == Hash(Word(0xB0FA_238E), Word(0xC064_5FDE), Word(0xD932_EB16), Word(0x8791_2990),
                           Word(0x0759_0DCD), Word(0x0B92_F20C), Word(0x745A_48DE), Word(0x1E57_8218))
  {
    hide TurnedAt;
    var s := hs[8];
    s := Next(hs, ws, 8, s, 0x8E04_ECB9, 0x32CA_2D8C);
    s := Next(hs, ws, 9, s, 0x8C87_346B, 0x1CC9_2596);
    s := Next(hs, ws, 10, s, 0x4798_A3F4, 0x436B_23E8);
    s := Next(hs, ws, 11, s, 0xF71F_C5A9, 0x816F_D6E9);
    s := Next(hs, ws, 12, s, 0x8791_2990, 0x1E57_8218);
    s := Next(hs, ws, 13, s, 0xD932_EB16, 0x745A_48DE);
    s := Next(hs, ws, 14, s, 0xC064_5FDE, 0x0B92_F20C);
    s := Next(hs, ws, 15, s, 0xB0FA_238E, 0x0759_0DCD);
  }

  lemma Turns2(hs: seq<Hash>, ws: seq<Word>)
    requires Turned(hs, ws)
    requires hs[16] == Hash(Word(0xB0FA_238E), Word(0xC064_5FDE), Word(0xD932_EB16), Word(0x8791_2990),
                            Word(0x0759_0DCD), Word(0x0B92_F20C), Word(0x745A_48DE), Word(0x1E57_8218))
    requires ws[16..24] == [Word(0x6162_6380), Word(0x000F_0000), Word(0x7DA8_6405), Word(0x6000_03C6),
                            Word(0x3E9D_7B78), Word(0x0183_FC00), Word(0x12DC_BFDB), Word(0xE2E2_C38E)]
    ensures hs[24] == Hash(Word(0xC5D5_3D8D), Word(0xA7A3_623F), Word(0xC260_6D6D), Word(0x9DC6_8B63),
                           Word(0xAA47_C347), Word(0x49F5_114A), Word(0xE125_7970), Word(0x8ADA_8930))
  {
    hide TurnedAt;
    var s := hs[16];
    s := Next(hs, ws, 16, s, 0x21DA_9A9B, 0x8034_229C);
    s := Next(hs, ws, 17, s, 0xC2FB_D9D1, 0x846E_E454);
    s := Next(hs, ws, 18, s, 0xFE77_7BBF, 0xCC89_9961);
    s := Next(hs, ws, 19, s, 0xE1F2_0C33, 0xB063_8179);
    s := Next(hs, ws, 20, s, 0x9DC6_8B63, 0x8ADA_8930);
    s := Next(hs, ws, 21, s, 0xC260_6D6D, 0xE125_7970);
    s := Next(hs, ws, 22, s, 0xA7A3_623F, 0x49F5_114A);
    s := Next(hs, ws, 23, s, 0xC5D5_3D8D, 0xAA47_C347);
  }

  lemma Turns3(hs: seq<Hash>, ws: seq<Word>)
    requires Turned(hs, ws)
    requires hs[24] == Hash(Word(0xC5D5_3D8D), Word(0xA7A3_623F), Word(0xC260_6D6D), Word(0x9DC6_8B63),
                            Word(0xAA47_C347), Word(0x49F5_114A), Word(0xE125_7970), Word(0x8ADA_8930))
    requires ws[24..32] == [Word(0xC821_5C1A), Word(0xB736_79A2), Word(0xE5BC_3909), Word(0x3266_3C5B),
                            Word(0x9D20_9D67), Word(0xEC87_26CB), Word(0x7021_38A4), Word(0xD3B7_973B)]
    ensures hs[32] == Hash(Word(0x73B3_3BF5), Word(0xEA99_2A22), Word(0xA006_0B30), Word(0x3634_82C9),
                           Word(0xBA59_1112), Word(0x0109_AB3A), Word(0xADE7_9437), Word(0x6112_A3B7))
  {
    hide TurnedAt;
    var s := hs[24];
    s := Next(hs, ws, 24, s, 0x1C2C_2838, 0x2823_EF91);
    s := Next(hs, ws, 25, s, 0xCDE8_037D, 0x1438_3D8E);
    s := Next(hs, ws, 26, s, 0xB62E_C4BC, 0xC74C_6516);
    s := Next(hs, ws, 27, s, 0x77D3_7528, 0xEDFF_BFF8);
    s := Next(hs, ws, 28, s, 0x3634_82C9, 0x6112_A3B7);
    s := Next(hs, ws, 29, s, 0xA006_0B30, 0xADE7_9437);
    s := Next(hs, ws, 30, s, 0xEA99_2A22, 0x0109_AB3A);
    s := Next(hs, ws, 31, s, 0x73B3_3BF5, 0xBA59_1112);
  }

  lemma Turns4(hs: seq<Hash>, ws: seq<Word>)
    requires Turned(hs, ws)
    requires hs[32] == Hash(Word(0x73B3_3BF5), Word(0xEA99_2A22), Word(0xA006_0B30), Word(0x3634_82C9),
                            Word(0xBA59_1112), Word(0x0109_AB3A), Word(0xADE7_9437), Word(0x6112_A3B7))
    requires ws[32..40] == [Word(0x93F5_997F), Word(0x3B68_BA73), Word(0xAFF4_FFC1), Word(0xF10A_5C62),
                            Word(0x0A8B_3996), Word(0x72AF_830A), Word(0x9409_E33E), Word(0x2464_1522)]
    ensures hs[40] == Hash(Word(0x79EA_687A), Word(0x6DC5_7A8A), Word(0x34DF_1604), Word(0x41A6_5CB1),
                           Word(0x1EFB_C0A0), Word(0xF078_1BC8), Word(0xA507_A53D), Word(0x0772_A26B))
  {
    hide TurnedAt;
    var s := hs[32];
    s := Next(hs, ws, 32, s, 0x98E1_2507, 0x9CD9_F5F6);
    s := Next(hs, ws, 33, s, 0xFE60_4DF5, 0x5924_9DD3);
    s := Next(hs, ws, 34, s, 0xA9A7_738C, 0x085F_3833);
    s := Next(hs, ws, 35, s, 0x65A0_CFE4, 0xF4B0_02D6);
    s := Next(hs, ws, 36, s, 0x41A6_5CB1, 0x0772_A26B);
    s := Next(hs, ws, 37, s, 0x34DF_1604, 0xA507_A53D);
    s := Next(hs, ws, 38, s, 0x6DC5_7A8A, 0xF078_1BC8);
    s := Next(hs, ws, 39, s, 0x79EA_687A, 0x1EFB_C0A0);
  }

  lemma Turns5(hs: seq<Hash>, ws: seq<Word>)
    requires Turned(hs, ws)
    requires hs[40] == Hash(Word(0x79EA_687A), Word(0x6DC5_7A8A), Word(0x34DF_1604), Word(0x41A6_5CB1),
                            Word(0x1EFB_C0A0), Word(0xF078_1BC8), Word(0xA507_A53D), Word(0x0772_A26B))
    requires ws[40..48] == [Word(0x9F47_BF94), Word(0xF0A6_4F5A), Word(0x3E24_6A79), Word(0x2733_3BA3),
                            Word(0x0C47_63F2), Word(0x840A_BF27), Word(0x7A29_0D5D), Word(0x065C_43DA)]
    ensures hs[48] == Hash(Word(0x4172_328D), Word(0xA14C_14B0), Word(0x72AB_4B91), Word(0x2662_8815),
                           Word(0xFECF_0BC6), Word(0xD57B_94A9), Word(0xB775_5DA1), Word(0xA80F_11F0))
  {
    hide TurnedAt;
    var s := hs[40];
    s := Next(hs, ws, 40, s, 0xD667_0766, 0x2635_2D63);
    s := Next(hs, ws, 41, s, 0xDF46_652F, 0x838B_2711);
    s := Next(hs, ws, 42, s, 0x17AA_0DFE, 0xDECD_4715);
    s := Next(hs, ws, 43, s, 0x9D4B_AF93, 0xFDA2_4C2E);
    s := Next(hs, ws, 44, s, 0x2662_8815, 0xA80F_11F0);
    s := Next(hs, ws, 45, s, 0x72AB_4B91, 0xB775_5DA1);
    s := Next(hs, ws, 46, s, 0xA14C_14B0, 0xD57B_94A9);
    s := Next(hs, ws, 47, s, 0x4172_328D, 0xFECF_0BC6);
  }

  lemma Turns6(hs: seq<Hash>, ws: seq<Word>)
    requires Turned(hs, ws)
    requires hs[48] == Hash(Word(0x4172_328D), Word(0xA14C_14B0), Word(0x72AB_4B91), Word(0x2662_8815),
                            Word(0xFECF_0BC6), Word(0xD57B_94A9), Word(0xB775_5DA1), Word(0xA80F_11F0))
    requires ws[48..56] == [Word(0xFB3E_89CB), Word(0xCC76_17DB), Word(0xB9E6_6C34), Word(0xA999_3667),
                            Word(0x84BA_DEDD), Word(0xC214_62BC), Word(0x1487_472C), Word(0xB20F_7A99)]
    ensures hs[56] == Hash(Word(0x38CC_9913), Word(0x3EC4_5CDB), Word(0xF570_2FDB), Word(0x101F_D28F),
                           Word(0x54CB_266B), Word(0xE50E_1B4F), Word(0x9F47_87C3), Word(0x529E_7D00))
  {
    hide TurnedAt;
    var s := hs[48];
    s := Next(hs, ws, 48, s, 0x0575_7CEB, 0xBD71_4038);
    s := Next(hs, ws, 49, s, 0xF11B_FAA8, 0x6E5C_390C);
    s := Next(hs, ws, 50, s, 0x7A05_08A1, 0x52F1_CCF7);
    s := Next(hs, ws, 51, s, 0x886E_7A22, 0x4923_1C1E);
    s := Next(hs, ws, 52, s, 0x101F_D28F, 0x529E_7D00);
    s := Next(hs, ws, 53, s, 0xF570_2FDB, 0x9F47_87C3);
    s := Next(hs, ws, 54, s, 0x3EC4_5CDB, 0xE50E_1B4F);
    s := Next(hs, ws, 55, s, 0x38CC_9913, 0x54CB_266B);
  }

  lemma Turns7(hs: seq<Hash>, ws: seq<Word>)
    requires Turned(hs, ws)
    requires hs[56] == Hash(Word(0x38CC_9913), Word(0x3EC4_5CDB), Word(0xF570_2FDB), Word(0x101F_D28F),
                            Word(0x54CB_266B), Word(0xE50E_1B4F), Word(0x9F47_87C3), Word(0x529E_7D00))
    requires ws[56..64] == [Word(0xEF57_B9CD), Word(0xEBE6_B238), Word(0x9FE3_095E), Word(0x78BC_8D4B),
                            Word(0xA43F_CF15), Word(0x668B_2FF8), Word(0xEEAB_A2CC), Word(0x12B1_EDEB)]
    ensures hs[64] == Hash(Word(0x506E_3058), Word(0xD39A_2165), Word(0x04D2_4D6C), Word(0xB85E_2CE9),
                           Word(0x5EF5_0F24), Word(0xFB12_1210), Word(0x948D_25B6), Word(0x961F_4894))
  {
    hide TurnedAt;
    var s := hs[56];
    s := Next(hs, ws, 56, s, 0xFCD1_887B, 0x9B5E_906C);
    s := Next(hs, ws, 57, s, 0xC062_D46F, 0x7E44_008E);
    s := Next(hs, ws, 58, s, 0xFFB7_0472, 0x6D83_BFC6);
    s := Next(hs, ws, 59, s, 0xB6AE_8FFF, 0xB21B_AD3D);
    s := Next(hs, ws, 60, s, 0xB85E_2CE9, 0x961F_4894);
    s := Next(hs, ws, 61, s, 0x04D2_4D6C, 0x948D_25B6);
    s := Next(hs, ws, 62, s, 0xD39A_2165, 0xFB12_1210);
    s := Next(hs, ws, 63, s, 0x506E_3058, 0x5EF5_0F24);
  }

  /** The first 16 words are the block's bytes, four a word. */
  lemma FirstWords(ws: seq<Word>)
    requires |ws| == 64 && forall t :: 0 <= t < 16 ==> ws[t] == WordAt(Block(), 4 * t)
    ensures ws[0..8] == [Word(0x6162_6380), Word(0x0000_0000), Word(0x0000_0000), Word(0x0000_0000),
                         Word(0x0000_0000), Word(0x0000_0000), Word(0x0000_0000), Word(0x0000_0000)]
    ensures ws[8..16] == [Word(0x0000_0000), Word(0x0000_0000), Word(0x0000_0000), Word(0x0000_0000),
                          Word(0x0000_0000), Word(0x0000_0000), Word(0x0000_0000), Word(0x0000_0018)]
  {
    hide WordAt;
    var b := Block();
    assert b[0] == 0x61 && b[1] == 0x62 && b[2] == 0x63 && b[3] == 0x80 && b[63] == 0x18;
    FirstWord(b);
    LastWord(b);
    forall t | 1 <= t < 15 ensures ws[t] == Word(0) {
      ZeroWord(b, 4 * t);
    }
  }

  lemma FirstWord(b: seq<byte>)
    requires |b| == 64 && b[0] == 0x61 && b[1] == 0x62 && b[2] == 0x63 && b[3] == 0x80
    ensures WordAt(b, 0) == Word(0x6162_6380)
  {}

  lemma LastWord(b: seq<byte>)
    requires |b| == 64 && b[60] == 0 && b[61] == 0 && b[62] == 0 && b[63] == 0x18
    ensures WordAt(b, 60) == Word(0x0000_0018)
  {}

  lemma ZeroWord(b: seq<byte>, i: nat)
    requires i + 4 <= |b| && b[i] == 0 && b[i + 1] == 0 && b[i + 2] == 0 && b[i + 3] == 0
    ensures WordAt(b, i) == Word(0)
  {}

  lemma AllWords(ws: seq<Word>)
    requires |ws| == 64 && Scheduled(ws) && forall t :: 0 <= t < 16 ==> ws[t] == WordAt(Block(), 4 * t)
    ensures ws[0..8] == [Word(0x6162_6380), Word(0x0000_0000), Word(0x0000_0000), Word(0x0000_0000),
                         Word(0x0000_0000), Word(0x0000_0000), Word(0x0000_0000), Word(0x0000_0000)]
    ensures ws[8..16] == [Word(0x0000_0000), Word(0x0000_0000), Word(0x0000_0000), Word(0x0000_0000),
                          Word(0x0000_0000), Word(0x0000_0000), Word(0x0000_0000), Word(0x0000_0018)]
    ensures ws[16..24] == [Word(0x6162_6380), Word(0x000F_0000), Word(0x7DA8_6405), Word(0x6000_03C6),
                           Word(0x3E9D_7B78), Word(0x0183_FC00), Word(0x12DC_BFDB), Word(0xE2E2_C38E)]
    ensures ws[24..32] == [Word(0xC821_5C1A), Word(0xB736_79A2), Word(0xE5BC_3909), Word(0x3266_3C5B),
                           Word(0x9D20_9D67), Word(0xEC87_26CB), Word(0x7021_38A4), Word(0xD3B7_973B)]
    ensures ws[32..40] == [Word(0x93F5_997F), Word(0x3B68_BA73), Word(0xAFF4_FFC1), Word(0xF10A_5C62),
                           Word(0x0A8B_3996), Word(0x72AF_830A), Word(0x9409_E33E), Word(0x2464_1522)]
    ensures ws[40..48] == [Word(0x9F47_BF94), Word(0xF0A6_4F5A), Word(0x3E24_6A79), Word(0x2733_3BA3),
                           Word(0x0C47_63F2), Word(0x840A_BF27), Word(0x7A29_0D5D), Word(0x065C_43DA)]
    ensures ws[48..56] == [Word(0xFB3E_89CB), Word(0xCC76_17DB), Word(0xB9E6_6C34), Word(0xA999_3667),
                           Word(0x84BA_DEDD), Word(0xC214_62BC), Word(0x1487_472C), Word(0xB20F_7A99)]
    ensures ws[56..64] == [Word(0xEF57_B9CD), Word(0xEBE6_B238), Word(0x9FE3_095E), Word(0x78BC_8D4B),
                           Word(0xA43F_CF15), Word(0x668B_2FF8), Word(0xEEAB_A2CC), Word(0x12B1_EDEB)]
  {
    hide WordAt, Scheduled;
    FirstWords(ws);
    Words16(ws);
    Words24(ws);
    Words32(ws);
    Words40(ws);
    Words48(ws);
    Words56(ws);
  }

  lemma InitialWords()
    ensures Initial() == Hash(Word(0x6A09_E667), Word(0xBB67_AE85), Word(0x3C6E_F372), Word(0xA54F_F53A),
                              Word(0x510E_527F), Word(0x9B05_688C), Word(0x1F83_D9AB), Word(0x5BE0_CD19))
  {}

  lemma LastSum()
    ensures Sum(Hash(Word(0x6A09_E667), Word(0xBB67_AE85), Word(0x3C6E_F372), Word(0xA54F_F53A),
                     Word(0x510E_527F), Word(0x9B05_688C), Word(0x1F83_D9AB), Word(0x5BE0_CD19)),
                Hash(Word(0x506E_3058), Word(0xD39A_2165), Word(0x04D2_4D6C), Word(0xB85E_2CE9),
                     Word(0x5EF5_0F24), Word(0xFB12_1210), Word(0x948D_25B6), Word(0x961F_4894)))
         == Hash(Word(0xBA78_16BF), Word(0x8F01_CFEA), Word(0x4141_40DE), Word(0x5DAE_2223),
                 Word(0xB003_61A3), Word(0x9617_7A9C), Word(0xB410_FF61), Word(0xF200_15AD))
  {}

  lemma AllTurns(hs: seq<Hash>, ws: seq<Word>)
    requires Turned(hs, ws) && hs[0] == Initial()
    requires |ws| == 64 && Scheduled(ws) && forall t :: 0 <= t < 16 ==> ws[t] == WordAt(Block(), 4 * t)
    ensures Sum(Initial(), hs[64]) == Hash(Word(0xBA78_16BF), Word(0x8F01_CFEA), Word(0x4141_40DE), Word(0x5DAE_2223),
                                           Word(0xB003_61A3), Word(0x9617_7A9C), Word(0xB410_FF61), Word(0xF200_15AD))
  {
    hide WordAt, Scheduled, Turned, Initial, Sum;
    AllWords(ws);
    InitialWords();
    Turns0(hs, ws);
    Turns1(hs, ws);
    Turns2(hs, ws);
    Turns3(hs, ws);
    Turns4(hs, ws);
    Turns5(hs, ws);
    Turns6(hs, ws);
    Turns7(hs, ws);
    LastSum();
  }

  lemma OneBlock(b: seq<byte>)
    requires |b| == 64
    ensures Chain(b) == Sum(Initial(), Turns(Initial(), b, 64))
  {
    hide Turns, Sum, Initial;
    assert b[..0] == [] && b[0..] == b;
    assert Chain([]) == Initial();
  }

  lemma AbcChain()
    ensures Chain(Block()) == Hash(Word(0xBA78_16BF), Word(0x8F01_CFEA), Word(0x4141_40DE), Word(0x5DAE_2223),
                                   Word(0xB003_61A3), Word(0x9617_7A9C), Word(0xB410_FF61), Word(0xF200_15AD))
  {
    hide Compress, Initial, Sum, WordAt, Mix, Turn, K, Schedule, Turns, Chain;
    var b := Block();
    OneBlock(b);
    var ws := seq(64, t requires 0 <= t < 64 => Schedule(b, t));
    var hs := seq(65, t requires 0 <= t < 65 => Turns(Initial(), b, t));
    TraceOf(b, ws, hs);
    AllTurns(hs, ws);
  }

  lemma TraceOf(b: seq<byte>, ws: seq<Word>, hs: seq<Hash>)
    requires |b| == 64 && |ws| == 64 && |hs| == 65
    requires forall t :: 0 <= t < 64 ==> ws[t] == Schedule(b, t)
    requires forall t :: 0 <= t < 65 ==> hs[t] == Turns(Initial(), b, t)
    ensures Scheduled(ws) && Turned(hs, ws) && hs[0] == Initial()
    ensures forall t :: 0 <= t < 16 ==> ws[t] == WordAt(b, 4 * t)
  {
    hide WordAt, Mix, Turn, K, Initial;
  }

  lemma WordBytes(w: bv32, n: nat, b0: byte, b1: byte, b2: byte, b3: byte)
    requires w as int == n == b0 * 0x100_0000 + b1 * 0x1_0000 + b2 * 0x100 + b3
    ensures Big32(w as int) == [b0, b1, b2, b3]
  {
    Quarters(n, b0, b1, b2, b3);
  }

  lemma {:induction false} Quarters(n: nat, b0: byte, b1: byte, b2: byte, b3: byte)
    requires n == b0 * 0x100_0000 + b1 * 0x1_0000 + b2 * 0x100 + b3
    ensures Big32(n) == [b0, b1, b2, b3]
  {
    ModIs(n, 0x100_0000, b0, b1 * 0x1_0000 + b2 * 0x100 + b3);
    ModIs(n, 0x1_0000, b0 * 0x100 + b1, b2 * 0x100 + b3);
    ModIs(n, 0x100, b0 * 0x1_0000 + b1 * 0x100 + b2, b3);
    ModIs(b0 * 0x100 + b1, 0x100, b0, b1);
    ModIs(b0 * 0x1_0000 + b1 * 0x100 + b2, 0x100, b0 * 0x100 + b1, b2);
    ModIs(b0, 0x100, 0, b0);
  }

  lemma LastBytes()
    ensures Bytes(Hash(Word(0xBA78_16BF), Word(0x8F01_CFEA), Word(0x4141_40DE), Word(0x5DAE_2223),
                       Word(0xB003_61A3), Word(0x9617_7A9C), Word(0xB410_FF61), Word(0xF200_15AD)))
         == [0xba, 0x78, 0x16, 0xbf] + [0x8f, 0x01, 0xcf, 0xea] + [0x41, 0x41, 0x40, 0xde] + [0x5d, 0xae, 0x22, 0x23]
            + [0xb0, 0x03, 0x61, 0xa3] + [0x96, 0x17, 0x7a, 0x9c] + [0xb4, 0x10, 0xff, 0x61] + [0xf2, 0x00, 0x15, 0xad]
  {
    hide Big32;
    WordBytes(0xBA78_16BF, 0xBA78_16BF, 0xba, 0x78, 0x16, 0xbf);
    WordBytes(0x8F01_CFEA, 0x8F01_CFEA, 0x8f, 0x01, 0xcf, 0xea);
    WordBytes(0x4141_40DE, 0x4141_40DE, 0x41, 0x41, 0x40, 0xde);
    WordBytes(0x5DAE_2223, 0x5DAE_2223, 0x5d, 0xae, 0x22, 0x23);
    WordBytes(0xB003_61A3, 0xB003_61A3, 0xb0, 0x03, 0x61, 0xa3);
    WordBytes(0x9617_7A9C, 0x9617_7A9C, 0x96, 0x17, 0x7a, 0x9c);
    WordBytes(0xB410_FF61, 0xB410_FF61, 0xb4, 0x10, 0xff, 0x61);
    WordBytes(0xF200_15AD, 0xF200_15AD, 0xf2, 0x00, 0x15, 0xad);
  }

  /** The digest of "abc" is the one the standard prints. */
  lemma AbcDigest()
    ensures Digest(ABC)
         == [0xba, 0x78, 0x16, 0xbf] + [0x8f, 0x01, 0xcf, 0xea] + [0x41, 0x41, 0x40, 0xde] + [0x5d, 0xae, 0x22, 0x23]
            + [0xb0, 0x03, 0x61, 0xa3] + [0x96, 0x17, 0x7a, 0x9c] + [0xb4, 0x10, 0xff, 0x61] + [0xf2, 0x00, 0x15, 0xad]
  {
    hide Chain, Pad, Bytes, Block;
    PaddedAbc();
    AbcChain();
    LastBytes();
  }
}
