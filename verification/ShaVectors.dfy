/** The examples of FIPS 180-4 on the message "abc", step by step: what SHA-1 and SHA-256 are on known bytes. */
module ShaVectors {
  import opened Fips180

  // ---------- the functions with constant shifts ----------

  function Right2(x: bv32): bv32 { (x >> 2) | (x << 30) }
  function Right6(x: bv32): bv32 { (x >> 6) | (x << 26) }
  function Right7(x: bv32): bv32 { (x >> 7) | (x << 25) }
  function Right11(x: bv32): bv32 { (x >> 11) | (x << 21) }
  function Right13(x: bv32): bv32 { (x >> 13) | (x << 19) }
  function Right17(x: bv32): bv32 { (x >> 17) | (x << 15) }
  function Right18(x: bv32): bv32 { (x >> 18) | (x << 14) }
  function Right19(x: bv32): bv32 { (x >> 19) | (x << 13) }
  function Right22(x: bv32): bv32 { (x >> 22) | (x << 10) }
  function Right25(x: bv32): bv32 { (x >> 25) | (x << 7) }
  function Left1(x: bv32): bv32 { (x << 1) | (x >> 31) }
  function Left5(x: bv32): bv32 { (x << 5) | (x >> 27) }
  function Left30(x: bv32): bv32 { (x << 30) | (x >> 2) }
  function Xor3(x: bv32, y: bv32, z: bv32): bv32 { x ^ y ^ z }
  function Xor4(x: bv32, y: bv32, z: bv32, u: bv32): bv32 { x ^ y ^ z ^ u }

  lemma Right2Is(x: bv32)
    ensures Rotr(x, 2) == Right2(x)
  {
  }

  lemma Right6Is(x: bv32)
    ensures Rotr(x, 6) == Right6(x)
  {
  }

  lemma Right7Is(x: bv32)
    ensures Rotr(x, 7) == Right7(x)
  {
  }

  lemma Right11Is(x: bv32)
    ensures Rotr(x, 11) == Right11(x)
  {
  }

  lemma Right13Is(x: bv32)
    ensures Rotr(x, 13) == Right13(x)
  {
  }

  lemma Right17Is(x: bv32)
    ensures Rotr(x, 17) == Right17(x)
  {
  }

  lemma Right18Is(x: bv32)
    ensures Rotr(x, 18) == Right18(x)
  {
  }

  lemma Right19Is(x: bv32)
    ensures Rotr(x, 19) == Right19(x)
  {
  }

  lemma Right22Is(x: bv32)
    ensures Rotr(x, 22) == Right22(x)
  {
  }

  lemma Right25Is(x: bv32)
    ensures Rotr(x, 25) == Right25(x)
  {
  }

  lemma Left1Is(x: bv32)
    ensures Rotl(x, 1) == Left1(x)
  {
  }

  lemma Left5Is(x: bv32)
    ensures Rotl(x, 5) == Left5(x)
  {
  }

  lemma Left30Is(x: bv32)
    ensures Rotl(x, 30) == Left30(x)
  {
  }

  lemma BigSigma0Turns(x: bv32)
    ensures BigSigma0(x) == Xor3(Rotr(x, 2), Rotr(x, 13), Rotr(x, 22))
  {
    hide Rotr;
  }

  lemma BigSigma0Is(x: bv32)
    ensures BigSigma0(x) == Xor3(Right2(x), Right13(x), Right22(x))
  {
    hide *;
    BigSigma0Turns(x);
    Right2Is(x);
    Right13Is(x);
    Right22Is(x);
  }

  lemma BigSigma1Turns(x: bv32)
    ensures BigSigma1(x) == Xor3(Rotr(x, 6), Rotr(x, 11), Rotr(x, 25))
  {
    hide Rotr;
  }

  lemma BigSigma1Is(x: bv32)
    ensures BigSigma1(x) == Xor3(Right6(x), Right11(x), Right25(x))
  {
    hide *;
    BigSigma1Turns(x);
    Right6Is(x);
    Right11Is(x);
    Right25Is(x);
  }

  lemma Sigma0Turns(x: bv32)
    ensures Sigma0(x) == Xor3(Rotr(x, 7), Rotr(x, 18), x >> 3)
  {
    hide Rotr;
  }

  lemma Sigma0Is(x: bv32)
    ensures Sigma0(x) == Xor3(Right7(x), Right18(x), x >> 3)
  {
    hide *;
    Sigma0Turns(x);
    Right7Is(x);
    Right18Is(x);
  }

  lemma Sigma1Turns(x: bv32)
    ensures Sigma1(x) == Xor3(Rotr(x, 17), Rotr(x, 19), x >> 10)
  {
    hide Rotr;
  }

  lemma Sigma1Is(x: bv32)
    ensures Sigma1(x) == Xor3(Right17(x), Right19(x), x >> 10)
  {
    hide *;
    Sigma1Turns(x);
    Right17Is(x);
    Right19Is(x);
  }

  // ---------- the message ----------

  function Abc(): Octets {
    [0x61, 0x62, 0x63]
  }

  /** "abc" padded: one block. */
  function AbcBlock(): (b: Octets)
    ensures |b| == 64
  {
    [0x61, 0x62, 0x63, 0x80] + ZeroOctets(52) + BigEndian(24, 8)
  }

  lemma AbcPadded()
    ensures Pad(Abc()) == AbcBlock()
  {
    PadIs(Abc());
    AbcParts();
    hide ZeroOctets, BigEndian, Pad;
  }

  lemma PadIs(m: Octets)
    ensures Pad(m) == m + [0x80] + ZeroOctets(ZeroCount(|m|)) + BigEndian(8 * |m|, 8)
  {
    hide ZeroCount, ZeroOctets, BigEndian;
  }

  lemma AbcParts()
    ensures |Abc()| == 3 && ZeroCount(3) == 52 && Abc() + [0x80] == [0x61, 0x62, 0x63, 0x80]
  {
  }

  lemma LengthField()
    ensures BigEndian(24, 8) == [0, 0, 0, 0, 0, 0, 0, 24]
  {
    assert BigEndian(0, 1) == [0];
    assert BigEndian(0, 3) == [0, 0, 0];
    assert BigEndian(0, 5) == [0, 0, 0, 0, 0];
    assert BigEndian(0, 7) == [0, 0, 0, 0, 0, 0, 0];
  }

  lemma Words()
    ensures Word(0x61, 0x62, 0x63, 0x80) == 0x61626380 && Word(0, 0, 0, 0) == 0 && Word(0, 0, 0, 24) == 24
  {
  }

  /** The words of the block. */
  lemma AbcWords(t: nat)
    requires t < 16
    ensures BlockWord(AbcBlock(), t) == if t == 0 then 0x61626380 else if t < 15 then 0 else 24
  {
    LengthField();
    Words();
    hide Word, ZeroOctets, BigEndian;
    var b := AbcBlock();
    assert b[0] == 0x61 && b[1] == 0x62 && b[2] == 0x63 && b[3] == 0x80;
    assert forall i :: 4 <= i < 63 ==> b[i] == 0;
    assert b[63] == 24;
  }

  // ---------- SHA-256 ----------

  lemma Words256(t: nat)
    requires t < 16
    ensures W256(AbcBlock(), t) == if t == 0 then 0x61626380 else if t < 15 then 0 else 24
  {
    AbcWords(t);
    hide BlockWord, AbcBlock;
  }

  /** One word of the schedule from four before it. */
  lemma ScheduleStep(block: Octets, t: nat, a: bv32, b: bv32, c: bv32, d: bv32, w: bv32)
    requires |block| == 64 && t >= 16
    requires W256(block, t - 2) == a && W256(block, t - 7) == b && W256(block, t - 15) == c && W256(block, t - 16) == d
    requires w == Add(Add(Add(Xor3(Right17(a), Right19(a), a >> 10), b), Xor3(Right7(c), Right18(c), c >> 3)), d)
    ensures W256(block, t) == w
  {
    hide Add, Sigma0, Sigma1, BlockWord, Xor3, Right7, Right17, Right18, Right19;
    Sigma0Is(c);
    Sigma1Is(a);
  }

  /** One round from the registers before it. */
  lemma RoundStep(block: Octets, t: nat, r: Regs, k: bv32, w: bv32, a: bv32, e: bv32) returns (s: Regs)
    requires |block| == 64 && t < 64 && W256(block, t) == w && K256()[t] == k
    requires Rounds256(First256(), block, t) == r
    requires var t1 := Add(Add(Add(Add(r.h, Xor3(Right6(r.e), Right11(r.e), Right25(r.e))), Ch(r.e, r.f, r.g)), k), w);
             && e == Add(r.d, t1)
             && a == Add(t1, Add(Xor3(Right2(r.a), Right13(r.a), Right22(r.a)), Maj(r.a, r.b, r.c)))
    ensures s == Rounds256(First256(), block, t + 1) == Regs(a, r.a, r.b, r.c, e, r.e, r.f, r.g)
  {
    hide W256, BigSigma0, BigSigma1, First256, K256, Add, Ch, Maj, Rotr, Xor3;
    hide Right2, Right6, Right11, Right13, Right22, Right25;
    BigSigma0Is(r.a);
    BigSigma1Is(r.e);
    s := Rounds256(First256(), block, t + 1);
  }

  /** Row 1 of the table. */
  lemma KRow0()
    ensures K256()[0] == 0x428a2f98 && K256()[1] == 0x71374491 && K256()[2] == 0xb5c0fbcf && K256()[3] == 0xe9b5dba5
    ensures K256()[4] == 0x3956c25b && K256()[5] == 0x59f111f1 && K256()[6] == 0x923f82a4 && K256()[7] == 0xab1c5ed5
  {
  }

  /** Row 2 of the table. */
  lemma KRow1()
    ensures K256()[8] == 0xd807aa98 && K256()[9] == 0x12835b01 && K256()[10] == 0x243185be && K256()[11] == 0x550c7dc3
    ensures K256()[12] == 0x72be5d74 && K256()[13] == 0x80deb1fe && K256()[14] == 0x9bdc06a7 && K256()[15] == 0xc19bf174
  {
  }

  /** Row 3 of the table. */
  lemma KRow2()
    ensures K256()[16] == 0xe49b69c1 && K256()[17] == 0xefbe4786 && K256()[18] == 0x0fc19dc6 && K256()[19] == 0x240ca1cc
    ensures K256()[20] == 0x2de92c6f && K256()[21] == 0x4a7484aa && K256()[22] == 0x5cb0a9dc && K256()[23] == 0x76f988da
  {
  }

  /** Row 4 of the table. */
  lemma KRow3()
    ensures K256()[24] == 0x983e5152 && K256()[25] == 0xa831c66d && K256()[26] == 0xb00327c8 && K256()[27] == 0xbf597fc7
    ensures K256()[28] == 0xc6e00bf3 && K256()[29] == 0xd5a79147 && K256()[30] == 0x06ca6351 && K256()[31] == 0x14292967
  {
  }

  /** Row 5 of the table. */
  lemma KRow4()
    ensures K256()[32] == 0x27b70a85 && K256()[33] == 0x2e1b2138 && K256()[34] == 0x4d2c6dfc && K256()[35] == 0x53380d13
    ensures K256()[36] == 0x650a7354 && K256()[37] == 0x766a0abb && K256()[38] == 0x81c2c92e && K256()[39] == 0x92722c85
  {
  }

  /** Row 6 of the table. */
  lemma KRow5()
    ensures K256()[40] == 0xa2bfe8a1 && K256()[41] == 0xa81a664b && K256()[42] == 0xc24b8b70 && K256()[43] == 0xc76c51a3
    ensures K256()[44] == 0xd192e819 && K256()[45] == 0xd6990624 && K256()[46] == 0xf40e3585 && K256()[47] == 0x106aa070
  {
  }

  /** Row 7 of the table. */
  lemma KRow6()
    ensures K256()[48] == 0x19a4c116 && K256()[49] == 0x1e376c08 && K256()[50] == 0x2748774c && K256()[51] == 0x34b0bcb5
    ensures K256()[52] == 0x391c0cb3 && K256()[53] == 0x4ed8aa4a && K256()[54] == 0x5b9cca4f && K256()[55] == 0x682e6ff3
  {
  }

  /** Row 8 of the table. */
  lemma KRow7()
    ensures K256()[56] == 0x748f82ee && K256()[57] == 0x78a5636f && K256()[58] == 0x84c87814 && K256()[59] == 0x8cc70208
    ensures K256()[60] == 0x90befffa && K256()[61] == 0xa4506ceb && K256()[62] == 0xbef9a3f7 && K256()[63] == 0xc67178f2
  {
  }

  lemma Schedule1()
    ensures W256(AbcBlock(), 16) == 0x61626380 && W256(AbcBlock(), 17) == 0x000f0000
    ensures W256(AbcBlock(), 18) == 0x7da86405 && W256(AbcBlock(), 19) == 0x600003c6
    ensures W256(AbcBlock(), 20) == 0x3e9d7b78 && W256(AbcBlock(), 21) == 0x0183fc00
    ensures W256(AbcBlock(), 22) == 0x12dcbfdb && W256(AbcBlock(), 23) == 0xe2e2c38e
    ensures W256(AbcBlock(), 24) == 0xc8215c1a && W256(AbcBlock(), 25) == 0xb73679a2
    ensures W256(AbcBlock(), 26) == 0xe5bc3909 && W256(AbcBlock(), 27) == 0x32663c5b
    ensures W256(AbcBlock(), 28) == 0x9d209d67 && W256(AbcBlock(), 29) == 0xec8726cb
    ensures W256(AbcBlock(), 30) == 0x702138a4 && W256(AbcBlock(), 31) == 0xd3b7973b
  {
    hide W256, AbcBlock;
    var b := AbcBlock();
    forall t: nat | t < 16
      ensures W256(b, t) == if t == 0 then 0x61626380 else if t < 15 then 0 else 24
    {
      Words256(t);
    }
    ScheduleStep(b, 16, 0x00000000, 0x00000000, 0x00000000, 0x61626380, 0x61626380);
    ScheduleStep(b, 17, 0x00000018, 0x00000000, 0x00000000, 0x00000000, 0x000f0000);
    ScheduleStep(b, 18, 0x61626380, 0x00000000, 0x00000000, 0x00000000, 0x7da86405);
    ScheduleStep(b, 19, 0x000f0000, 0x00000000, 0x00000000, 0x00000000, 0x600003c6);
    ScheduleStep(b, 20, 0x7da86405, 0x00000000, 0x00000000, 0x00000000, 0x3e9d7b78);
    ScheduleStep(b, 21, 0x600003c6, 0x00000000, 0x00000000, 0x00000000, 0x0183fc00);
    ScheduleStep(b, 22, 0x3e9d7b78, 0x00000018, 0x00000000, 0x00000000, 0x12dcbfdb);
    ScheduleStep(b, 23, 0x0183fc00, 0x61626380, 0x00000000, 0x00000000, 0xe2e2c38e);
    ScheduleStep(b, 24, 0x12dcbfdb, 0x000f0000, 0x00000000, 0x00000000, 0xc8215c1a);
    ScheduleStep(b, 25, 0xe2e2c38e, 0x7da86405, 0x00000000, 0x00000000, 0xb73679a2);
    ScheduleStep(b, 26, 0xc8215c1a, 0x600003c6, 0x00000000, 0x00000000, 0xe5bc3909);
    ScheduleStep(b, 27, 0xb73679a2, 0x3e9d7b78, 0x00000000, 0x00000000, 0x32663c5b);
    ScheduleStep(b, 28, 0xe5bc3909, 0x0183fc00, 0x00000000, 0x00000000, 0x9d209d67);
    ScheduleStep(b, 29, 0x32663c5b, 0x12dcbfdb, 0x00000000, 0x00000000, 0xec8726cb);
    ScheduleStep(b, 30, 0x9d209d67, 0xe2e2c38e, 0x00000018, 0x00000000, 0x702138a4);
    ScheduleStep(b, 31, 0xec8726cb, 0xc8215c1a, 0x61626380, 0x00000018, 0xd3b7973b);
  }

  lemma Schedule2()
    ensures W256(AbcBlock(), 32) == 0x93f5997f && W256(AbcBlock(), 33) == 0x3b68ba73
    ensures W256(AbcBlock(), 34) == 0xaff4ffc1 && W256(AbcBlock(), 35) == 0xf10a5c62
    ensures W256(AbcBlock(), 36) == 0x0a8b3996 && W256(AbcBlock(), 37) == 0x72af830a
    ensures W256(AbcBlock(), 38) == 0x9409e33e && W256(AbcBlock(), 39) == 0x24641522
    ensures W256(AbcBlock(), 40) == 0x9f47bf94 && W256(AbcBlock(), 41) == 0xf0a64f5a
    ensures W256(AbcBlock(), 42) == 0x3e246a79 && W256(AbcBlock(), 43) == 0x27333ba3
    ensures W256(AbcBlock(), 44) == 0x0c4763f2 && W256(AbcBlock(), 45) == 0x840abf27
    ensures W256(AbcBlock(), 46) == 0x7a290d5d && W256(AbcBlock(), 47) == 0x065c43da
  {
    hide W256, AbcBlock;
    var b := AbcBlock();
    Schedule1();
    ScheduleStep(b, 32, 0x702138a4, 0xb73679a2, 0x000f0000, 0x61626380, 0x93f5997f);
    ScheduleStep(b, 33, 0xd3b7973b, 0xe5bc3909, 0x7da86405, 0x000f0000, 0x3b68ba73);
    ScheduleStep(b, 34, 0x93f5997f, 0x32663c5b, 0x600003c6, 0x7da86405, 0xaff4ffc1);
    ScheduleStep(b, 35, 0x3b68ba73, 0x9d209d67, 0x3e9d7b78, 0x600003c6, 0xf10a5c62);
    ScheduleStep(b, 36, 0xaff4ffc1, 0xec8726cb, 0x0183fc00, 0x3e9d7b78, 0x0a8b3996);
    ScheduleStep(b, 37, 0xf10a5c62, 0x702138a4, 0x12dcbfdb, 0x0183fc00, 0x72af830a);
    ScheduleStep(b, 38, 0x0a8b3996, 0xd3b7973b, 0xe2e2c38e, 0x12dcbfdb, 0x9409e33e);
    ScheduleStep(b, 39, 0x72af830a, 0x93f5997f, 0xc8215c1a, 0xe2e2c38e, 0x24641522);
    ScheduleStep(b, 40, 0x9409e33e, 0x3b68ba73, 0xb73679a2, 0xc8215c1a, 0x9f47bf94);
    ScheduleStep(b, 41, 0x24641522, 0xaff4ffc1, 0xe5bc3909, 0xb73679a2, 0xf0a64f5a);
    ScheduleStep(b, 42, 0x9f47bf94, 0xf10a5c62, 0x32663c5b, 0xe5bc3909, 0x3e246a79);
    ScheduleStep(b, 43, 0xf0a64f5a, 0x0a8b3996, 0x9d209d67, 0x32663c5b, 0x27333ba3);
    ScheduleStep(b, 44, 0x3e246a79, 0x72af830a, 0xec8726cb, 0x9d209d67, 0x0c4763f2);
    ScheduleStep(b, 45, 0x27333ba3, 0x9409e33e, 0x702138a4, 0xec8726cb, 0x840abf27);
    ScheduleStep(b, 46, 0x0c4763f2, 0x24641522, 0xd3b7973b, 0x702138a4, 0x7a290d5d);
    ScheduleStep(b, 47, 0x840abf27, 0x9f47bf94, 0x93f5997f, 0xd3b7973b, 0x065c43da);
  }

  lemma Schedule3()
    ensures W256(AbcBlock(), 48) == 0xfb3e89cb && W256(AbcBlock(), 49) == 0xcc7617db
    ensures W256(AbcBlock(), 50) == 0xb9e66c34 && W256(AbcBlock(), 51) == 0xa9993667
    ensures W256(AbcBlock(), 52) == 0x84badedd && W256(AbcBlock(), 53) == 0xc21462bc
    ensures W256(AbcBlock(), 54) == 0x1487472c && W256(AbcBlock(), 55) == 0xb20f7a99
    ensures W256(AbcBlock(), 56) == 0xef57b9cd && W256(AbcBlock(), 57) == 0xebe6b238
    ensures W256(AbcBlock(), 58) == 0x9fe3095e && W256(AbcBlock(), 59) == 0x78bc8d4b
    ensures W256(AbcBlock(), 60) == 0xa43fcf15 && W256(AbcBlock(), 61) == 0x668b2ff8
    ensures W256(AbcBlock(), 62) == 0xeeaba2cc && W256(AbcBlock(), 63) == 0x12b1edeb
  {
    hide W256, AbcBlock;
    var b := AbcBlock();
    Schedule2();
    ScheduleStep(b, 48, 0x7a290d5d, 0xf0a64f5a, 0x3b68ba73, 0x93f5997f, 0xfb3e89cb);
    ScheduleStep(b, 49, 0x065c43da, 0x3e246a79, 0xaff4ffc1, 0x3b68ba73, 0xcc7617db);
    ScheduleStep(b, 50, 0xfb3e89cb, 0x27333ba3, 0xf10a5c62, 0xaff4ffc1, 0xb9e66c34);
    ScheduleStep(b, 51, 0xcc7617db, 0x0c4763f2, 0x0a8b3996, 0xf10a5c62, 0xa9993667);
    ScheduleStep(b, 52, 0xb9e66c34, 0x840abf27, 0x72af830a, 0x0a8b3996, 0x84badedd);
    ScheduleStep(b, 53, 0xa9993667, 0x7a290d5d, 0x9409e33e, 0x72af830a, 0xc21462bc);
    ScheduleStep(b, 54, 0x84badedd, 0x065c43da, 0x24641522, 0x9409e33e, 0x1487472c);
    ScheduleStep(b, 55, 0xc21462bc, 0xfb3e89cb, 0x9f47bf94, 0x24641522, 0xb20f7a99);
    ScheduleStep(b, 56, 0x1487472c, 0xcc7617db, 0xf0a64f5a, 0x9f47bf94, 0xef57b9cd);
    ScheduleStep(b, 57, 0xb20f7a99, 0xb9e66c34, 0x3e246a79, 0xf0a64f5a, 0xebe6b238);
    ScheduleStep(b, 58, 0xef57b9cd, 0xa9993667, 0x27333ba3, 0x3e246a79, 0x9fe3095e);
    ScheduleStep(b, 59, 0xebe6b238, 0x84badedd, 0x0c4763f2, 0x27333ba3, 0x78bc8d4b);
    ScheduleStep(b, 60, 0x9fe3095e, 0xc21462bc, 0x840abf27, 0x0c4763f2, 0xa43fcf15);
    ScheduleStep(b, 61, 0x78bc8d4b, 0x1487472c, 0x7a290d5d, 0x840abf27, 0x668b2ff8);
    ScheduleStep(b, 62, 0xa43fcf15, 0xb20f7a99, 0x065c43da, 0x7a290d5d, 0xeeaba2cc);
    ScheduleStep(b, 63, 0x668b2ff8, 0xef57b9cd, 0xfb3e89cb, 0x065c43da, 0x12b1edeb);
  }

  lemma Rounds16() returns (r: Regs)
    ensures r == Rounds256(First256(), AbcBlock(), 16)
    ensures r == Regs(0xb0fa238e, 0xc0645fde, 0xd932eb16, 0x87912990, 0x07590dcd, 0x0b92f20c, 0x745a48de, 0x1e578218)
  {
    hide W256, Rounds256, K256, AbcBlock;
    var b := AbcBlock();
    KRow0();
    KRow1();
    forall t: nat | t < 16
      ensures W256(b, t) == if t == 0 then 0x61626380 else if t < 15 then 0 else 24
    {
      Words256(t);
    }
    r := NoRounds();
    hide First256;
    r := RoundStep(b, 0, r, 0x428a2f98, 0x61626380, 0x5d6aebcd, 0xfa2a4622);
    r := RoundStep(b, 1, r, 0x71374491, 0x00000000, 0x5a6ad9ad, 0x78ce7989);
    r := RoundStep(b, 2, r, 0xb5c0fbcf, 0x00000000, 0xc8c347a7, 0xf92939eb);
    r := RoundStep(b, 3, r, 0xe9b5dba5, 0x00000000, 0xd550f666, 0x24e00850);
    r := RoundStep(b, 4, r, 0x3956c25b, 0x00000000, 0x04409a6a, 0x43ada245);
    r := RoundStep(b, 5, r, 0x59f111f1, 0x00000000, 0x2b4209f5, 0x714260ad);
    r := RoundStep(b, 6, r, 0x923f82a4, 0x00000000, 0xe5030380, 0x9b27a401);
    r := RoundStep(b, 7, r, 0xab1c5ed5, 0x00000000, 0x85a07b5f, 0x0c657a79);
    r := RoundStep(b, 8, r, 0xd807aa98, 0x00000000, 0x8e04ecb9, 0x32ca2d8c);
    r := RoundStep(b, 9, r, 0x12835b01, 0x00000000, 0x8c87346b, 0x1cc92596);
    r := RoundStep(b, 10, r, 0x243185be, 0x00000000, 0x4798a3f4, 0x436b23e8);
    r := RoundStep(b, 11, r, 0x550c7dc3, 0x00000000, 0xf71fc5a9, 0x816fd6e9);
    r := RoundStep(b, 12, r, 0x72be5d74, 0x00000000, 0x87912990, 0x1e578218);
    r := RoundStep(b, 13, r, 0x80deb1fe, 0x00000000, 0xd932eb16, 0x745a48de);
    r := RoundStep(b, 14, r, 0x9bdc06a7, 0x00000000, 0xc0645fde, 0x0b92f20c);
    r := RoundStep(b, 15, r, 0xc19bf174, 0x00000018, 0xb0fa238e, 0x07590dcd);
  }

  lemma Rounds32() returns (r: Regs)
    ensures r == Rounds256(First256(), AbcBlock(), 32)
    ensures r == Regs(0x73b33bf5, 0xea992a22, 0xa0060b30, 0x363482c9, 0xba591112, 0x0109ab3a, 0xade79437, 0x6112a3b7)
  {
    hide W256, Rounds256, K256, AbcBlock;
    var b := AbcBlock();
    KRow2();
    KRow3();
    Schedule1();
    r := Rounds16();
    hide First256;
    r := RoundStep(b, 16, r, 0xe49b69c1, 0x61626380, 0x21da9a9b, 0x8034229c);
    r := RoundStep(b, 17, r, 0xefbe4786, 0x000f0000, 0xc2fbd9d1, 0x846ee454);
    r := RoundStep(b, 18, r, 0x0fc19dc6, 0x7da86405, 0xfe777bbf, 0xcc899961);
    r := RoundStep(b, 19, r, 0x240ca1cc, 0x600003c6, 0xe1f20c33, 0xb0638179);
    r := RoundStep(b, 20, r, 0x2de92c6f, 0x3e9d7b78, 0x9dc68b63, 0x8ada8930);
    r := RoundStep(b, 21, r, 0x4a7484aa, 0x0183fc00, 0xc2606d6d, 0xe1257970);
    r := RoundStep(b, 22, r, 0x5cb0a9dc, 0x12dcbfdb, 0xa7a3623f, 0x49f5114a);
    r := RoundStep(b, 23, r, 0x76f988da, 0xe2e2c38e, 0xc5d53d8d, 0xaa47c347);
    r := RoundStep(b, 24, r, 0x983e5152, 0xc8215c1a, 0x1c2c2838, 0x2823ef91);
    r := RoundStep(b, 25, r, 0xa831c66d, 0xb73679a2, 0xcde8037d, 0x14383d8e);
    r := RoundStep(b, 26, r, 0xb00327c8, 0xe5bc3909, 0xb62ec4bc, 0xc74c6516);
    r := RoundStep(b, 27, r, 0xbf597fc7, 0x32663c5b, 0x77d37528, 0xedffbff8);
    r := RoundStep(b, 28, r, 0xc6e00bf3, 0x9d209d67, 0x363482c9, 0x6112a3b7);
    r := RoundStep(b, 29, r, 0xd5a79147, 0xec8726cb, 0xa0060b30, 0xade79437);
    r := RoundStep(b, 30, r, 0x06ca6351, 0x702138a4, 0xea992a22, 0x0109ab3a);
    r := RoundStep(b, 31, r, 0x14292967, 0xd3b7973b, 0x73b33bf5, 0xba591112);
  }

  lemma Rounds48() returns (r: Regs)
    ensures r == Rounds256(First256(), AbcBlock(), 48)
    ensures r == Regs(0x4172328d, 0xa14c14b0, 0x72ab4b91, 0x26628815, 0xfecf0bc6, 0xd57b94a9, 0xb7755da1, 0xa80f11f0)
  {
    hide W256, Rounds256, K256, AbcBlock;
    var b := AbcBlock();
    KRow4();
    KRow5();
    Schedule2();
    r := Rounds32();
    hide First256;
    r := RoundStep(b, 32, r, 0x27b70a85, 0x93f5997f, 0x98e12507, 0x9cd9f5f6);
    r := RoundStep(b, 33, r, 0x2e1b2138, 0x3b68ba73, 0xfe604df5, 0x59249dd3);
    r := RoundStep(b, 34, r, 0x4d2c6dfc, 0xaff4ffc1, 0xa9a7738c, 0x085f3833);
    r := RoundStep(b, 35, r, 0x53380d13, 0xf10a5c62, 0x65a0cfe4, 0xf4b002d6);
    r := RoundStep(b, 36, r, 0x650a7354, 0x0a8b3996, 0x41a65cb1, 0x0772a26b);
    r := RoundStep(b, 37, r, 0x766a0abb, 0x72af830a, 0x34df1604, 0xa507a53d);
    r := RoundStep(b, 38, r, 0x81c2c92e, 0x9409e33e, 0x6dc57a8a, 0xf0781bc8);
    r := RoundStep(b, 39, r, 0x92722c85, 0x24641522, 0x79ea687a, 0x1efbc0a0);
    r := RoundStep(b, 40, r, 0xa2bfe8a1, 0x9f47bf94, 0xd6670766, 0x26352d63);
    r := RoundStep(b, 41, r, 0xa81a664b, 0xf0a64f5a, 0xdf46652f, 0x838b2711);
    r := RoundStep(b, 42, r, 0xc24b8b70, 0x3e246a79, 0x17aa0dfe, 0xdecd4715);
    r := RoundStep(b, 43, r, 0xc76c51a3, 0x27333ba3, 0x9d4baf93, 0xfda24c2e);
    r := RoundStep(b, 44, r, 0xd192e819, 0x0c4763f2, 0x26628815, 0xa80f11f0);
    r := RoundStep(b, 45, r, 0xd6990624, 0x840abf27, 0x72ab4b91, 0xb7755da1);
    r := RoundStep(b, 46, r, 0xf40e3585, 0x7a290d5d, 0xa14c14b0, 0xd57b94a9);
    r := RoundStep(b, 47, r, 0x106aa070, 0x065c43da, 0x4172328d, 0xfecf0bc6);
  }

  lemma Rounds64() returns (r: Regs)
    ensures r == Rounds256(First256(), AbcBlock(), 64)
    ensures r == Regs(0x506e3058, 0xd39a2165, 0x04d24d6c, 0xb85e2ce9, 0x5ef50f24, 0xfb121210, 0x948d25b6, 0x961f4894)
  {
    hide W256, Rounds256, K256, AbcBlock;
    var b := AbcBlock();
    KRow6();
    KRow7();
    Schedule3();
    r := Rounds48();
    hide First256;
    r := RoundStep(b, 48, r, 0x19a4c116, 0xfb3e89cb, 0x05757ceb, 0xbd714038);
    r := RoundStep(b, 49, r, 0x1e376c08, 0xcc7617db, 0xf11bfaa8, 0x6e5c390c);
    r := RoundStep(b, 50, r, 0x2748774c, 0xb9e66c34, 0x7a0508a1, 0x52f1ccf7);
    r := RoundStep(b, 51, r, 0x34b0bcb5, 0xa9993667, 0x886e7a22, 0x49231c1e);
    r := RoundStep(b, 52, r, 0x391c0cb3, 0x84badedd, 0x101fd28f, 0x529e7d00);
    r := RoundStep(b, 53, r, 0x4ed8aa4a, 0xc21462bc, 0xf5702fdb, 0x9f4787c3);
    r := RoundStep(b, 54, r, 0x5b9cca4f, 0x1487472c, 0x3ec45cdb, 0xe50e1b4f);
    r := RoundStep(b, 55, r, 0x682e6ff3, 0xb20f7a99, 0x38cc9913, 0x54cb266b);
    r := RoundStep(b, 56, r, 0x748f82ee, 0xef57b9cd, 0xfcd1887b, 0x9b5e906c);
    r := RoundStep(b, 57, r, 0x78a5636f, 0xebe6b238, 0xc062d46f, 0x7e44008e);
    r := RoundStep(b, 58, r, 0x84c87814, 0x9fe3095e, 0xffb70472, 0x6d83bfc6);
    r := RoundStep(b, 59, r, 0x8cc70208, 0x78bc8d4b, 0xb6ae8fff, 0xb21bad3d);
    r := RoundStep(b, 60, r, 0x90befffa, 0xa43fcf15, 0xb85e2ce9, 0x961f4894);
    r := RoundStep(b, 61, r, 0xa4506ceb, 0x668b2ff8, 0x04d24d6c, 0x948d25b6);
    r := RoundStep(b, 62, r, 0xbef9a3f7, 0xeeaba2cc, 0xd39a2165, 0xfb121210);
    r := RoundStep(b, 63, r, 0xc67178f2, 0x12b1edeb, 0x506e3058, 0x5ef50f24);
  }

  lemma NoRounds() returns (r: Regs)
    ensures r == Rounds256(First256(), AbcBlock(), 0) == Regs(0x6a09e667, 0xbb67ae85, 0x3c6ef372, 0xa54ff53a,
                                                              0x510e527f, 0x9b05688c, 0x1f83d9ab, 0x5be0cd19)
  {
    hide AbcBlock;
    r := First256();
  }

  lemma AbcSum(r: Regs)
    requires r == Regs(0x506e3058, 0xd39a2165, 0x04d24d6c, 0xb85e2ce9, 0x5ef50f24, 0xfb121210, 0x948d25b6, 0x961f4894)
    ensures AddRegs(First256(), r)
         == Regs(0xba7816bf, 0x8f01cfea, 0x414140de, 0x5dae2223, 0xb00361a3, 0x96177a9c, 0xb410ff61, 0xf20015ad)
  {
  }

  /** The digest of "abc". */
  lemma Sha256OfAbc()
    ensures Sha256(Abc())
         == [0xba, 0x78, 0x16, 0xbf, 0x8f, 0x01, 0xcf, 0xea,
             0x41, 0x41, 0x40, 0xde, 0x5d, 0xae, 0x22, 0x23,
             0xb0, 0x03, 0x61, 0xa3, 0x96, 0x17, 0x7a, 0x9c,
             0xb4, 0x10, 0xff, 0x61, 0xf2, 0x00, 0x15, 0xad]
  {
    AbcPadded();
    var r := Rounds64();
    AbcSum(r);
    OneBlockChain(AbcBlock());
    Bytes256();
    hide AbcBlock, Rounds256, First256, AddRegs, Digest256, Pad, Chain256;
  }

  lemma OneBlockChain(b: Octets)
    requires |b| == 64
    ensures Chain256(b) == AddRegs(First256(), Rounds256(First256(), b, 64))
    ensures Chain1(b) == Compress1(First1(), b)
  {
    hide AddRegs, Rounds256, First256, Compress1, First1;
    assert b[..|b| - 64] == [] && b[|b| - 64..] == b;
  }

  /** The words of a digest one after the other. */
  lemma WordsCons(w: bv32, ws: seq<bv32>, first: Octets, rest: Octets)
    requires WordBytes(w) == first && WordsBytes(ws) == rest
    ensures WordsBytes([w] + ws) == first + rest
  {
    hide WordBytes;
    assert ([w] + ws)[1..] == ws;
  }

  lemma NoWords()
    ensures WordsBytes([]) == []
  {
  }

  lemma Bytes256()
    ensures Digest256(Regs(0xba7816bf, 0x8f01cfea, 0x414140de, 0x5dae2223, 0xb00361a3, 0x96177a9c, 0xb410ff61,
                           0xf20015ad))
         == [0xba, 0x78, 0x16, 0xbf, 0x8f, 0x01, 0xcf, 0xea,
             0x41, 0x41, 0x40, 0xde, 0x5d, 0xae, 0x22, 0x23,
             0xb0, 0x03, 0x61, 0xa3, 0x96, 0x17, 0x7a, 0x9c,
             0xb4, 0x10, 0xff, 0x61, 0xf2, 0x00, 0x15, 0xad]
  {
    Bytes256Words();
    hide WordBytes, WordsBytes;
    var ws: seq<bv32>, bs: Octets := [], [];
    NoWords();
    WordsCons(0xf20015ad, ws, [0xf2, 0x00, 0x15, 0xad], bs);
    ws, bs := [0xf20015ad] + ws, [0xf2, 0x00, 0x15, 0xad] + bs;
    WordsCons(0xb410ff61, ws, [0xb4, 0x10, 0xff, 0x61], bs);
    ws, bs := [0xb410ff61] + ws, [0xb4, 0x10, 0xff, 0x61] + bs;
    WordsCons(0x96177a9c, ws, [0x96, 0x17, 0x7a, 0x9c], bs);
    ws, bs := [0x96177a9c] + ws, [0x96, 0x17, 0x7a, 0x9c] + bs;
    WordsCons(0xb00361a3, ws, [0xb0, 0x03, 0x61, 0xa3], bs);
    ws, bs := [0xb00361a3] + ws, [0xb0, 0x03, 0x61, 0xa3] + bs;
    WordsCons(0x5dae2223, ws, [0x5d, 0xae, 0x22, 0x23], bs);
    ws, bs := [0x5dae2223] + ws, [0x5d, 0xae, 0x22, 0x23] + bs;
    WordsCons(0x414140de, ws, [0x41, 0x41, 0x40, 0xde], bs);
    ws, bs := [0x414140de] + ws, [0x41, 0x41, 0x40, 0xde] + bs;
    WordsCons(0x8f01cfea, ws, [0x8f, 0x01, 0xcf, 0xea], bs);
    ws, bs := [0x8f01cfea] + ws, [0x8f, 0x01, 0xcf, 0xea] + bs;
    WordsCons(0xba7816bf, ws, [0xba, 0x78, 0x16, 0xbf], bs);
    ws, bs := [0xba7816bf] + ws, [0xba, 0x78, 0x16, 0xbf] + bs;
    assert ws == [0xba7816bf, 0x8f01cfea, 0x414140de, 0x5dae2223, 0xb00361a3, 0x96177a9c, 0xb410ff61, 0xf20015ad];
  }

  lemma Bytes256Words()
    ensures WordBytes(0xba7816bf) == [0xba, 0x78, 0x16, 0xbf]
    ensures WordBytes(0x8f01cfea) == [0x8f, 0x01, 0xcf, 0xea]
    ensures WordBytes(0x414140de) == [0x41, 0x41, 0x40, 0xde]
    ensures WordBytes(0x5dae2223) == [0x5d, 0xae, 0x22, 0x23]
    ensures WordBytes(0xb00361a3) == [0xb0, 0x03, 0x61, 0xa3]
    ensures WordBytes(0x96177a9c) == [0x96, 0x17, 0x7a, 0x9c]
    ensures WordBytes(0xb410ff61) == [0xb4, 0x10, 0xff, 0x61]
    ensures WordBytes(0xf20015ad) == [0xf2, 0x00, 0x15, 0xad]
  {
  }

  // ---------- SHA-1 ----------

  lemma Words1(t: nat)
    requires t < 16
    ensures W1(AbcBlock(), t) == if t == 0 then 0x61626380 else if t < 15 then 0 else 24
  {
    AbcWords(t);
    hide BlockWord, AbcBlock;
  }

  lemma ScheduleStep1(block: Octets, t: nat, a: bv32, b: bv32, c: bv32, d: bv32, w: bv32)
    requires |block| == 64 && t >= 16
    requires W1(block, t - 3) == a && W1(block, t - 8) == b && W1(block, t - 14) == c && W1(block, t - 16) == d
    requires w == Left1(Xor4(a, b, c, d))
    ensures W1(block, t) == w
  {
    Unfold1(block, t);
    hide *;
    Left1Is(Xor4(a, b, c, d));
  }

  lemma Unfold1(block: Octets, t: nat)
    requires |block| == 64 && t >= 16
    ensures W1(block, t) == Rotl(Xor4(W1(block, t - 3), W1(block, t - 8), W1(block, t - 14), W1(block, t - 16)), 1)
  {
    hide Rotl, BlockWord;
  }

  lemma RoundStep1(block: Octets, t: nat, r: Regs5, w: bv32, a: bv32, c: bv32) returns (s: Regs5)
    requires |block| == 64 && t < 80 && W1(block, t) == w && Rounds1(First1(), block, t) == r
    requires a == Add(Add(Add(Add(Left5(r.a), F1(t, r.b, r.c, r.d)), r.e), K1(t)), w) && c == Left30(r.b)
    ensures s == Rounds1(First1(), block, t + 1) == Regs5(a, r.a, c, r.c, r.d)
  {
    hide W1, First1, K1, F1, Add, Rotl, Left5, Left30;
    Left5Is(r.a);
    Left30Is(r.b);
    s := Rounds1(First1(), block, t + 1);
  }

  lemma ScheduleOne1()
    ensures W1(AbcBlock(), 16) == 0xc2c4c700 && W1(AbcBlock(), 17) == 0x00000000
    ensures W1(AbcBlock(), 18) == 0x00000030 && W1(AbcBlock(), 19) == 0x85898e01
    ensures W1(AbcBlock(), 20) == 0x00000000 && W1(AbcBlock(), 21) == 0x00000060
    ensures W1(AbcBlock(), 22) == 0x0b131c03 && W1(AbcBlock(), 23) == 0x00000030
    ensures W1(AbcBlock(), 24) == 0x85898ec1 && W1(AbcBlock(), 25) == 0x16263806
    ensures W1(AbcBlock(), 26) == 0x00000000 && W1(AbcBlock(), 27) == 0x00000180
    ensures W1(AbcBlock(), 28) == 0x2c4c700c && W1(AbcBlock(), 29) == 0x000000f0
    ensures W1(AbcBlock(), 30) == 0x93afb507 && W1(AbcBlock(), 31) == 0x5898e048
  {
    hide W1, AbcBlock;
    var b := AbcBlock();
    forall t: nat | t < 16
      ensures W1(b, t) == if t == 0 then 0x61626380 else if t < 15 then 0 else 24
    {
      Words1(t);
    }
    ScheduleStep1(b, 16, 0x00000000, 0x00000000, 0x00000000, 0x61626380, 0xc2c4c700);
    ScheduleStep1(b, 17, 0x00000000, 0x00000000, 0x00000000, 0x00000000, 0x00000000);
    ScheduleStep1(b, 18, 0x00000018, 0x00000000, 0x00000000, 0x00000000, 0x00000030);
    ScheduleStep1(b, 19, 0xc2c4c700, 0x00000000, 0x00000000, 0x00000000, 0x85898e01);
    ScheduleStep1(b, 20, 0x00000000, 0x00000000, 0x00000000, 0x00000000, 0x00000000);
    ScheduleStep1(b, 21, 0x00000030, 0x00000000, 0x00000000, 0x00000000, 0x00000060);
    ScheduleStep1(b, 22, 0x85898e01, 0x00000000, 0x00000000, 0x00000000, 0x0b131c03);
    ScheduleStep1(b, 23, 0x00000000, 0x00000018, 0x00000000, 0x00000000, 0x00000030);
    ScheduleStep1(b, 24, 0x00000060, 0xc2c4c700, 0x00000000, 0x00000000, 0x85898ec1);
    ScheduleStep1(b, 25, 0x0b131c03, 0x00000000, 0x00000000, 0x00000000, 0x16263806);
    ScheduleStep1(b, 26, 0x00000030, 0x00000030, 0x00000000, 0x00000000, 0x00000000);
    ScheduleStep1(b, 27, 0x85898ec1, 0x85898e01, 0x00000000, 0x00000000, 0x00000180);
    ScheduleStep1(b, 28, 0x16263806, 0x00000000, 0x00000000, 0x00000000, 0x2c4c700c);
    ScheduleStep1(b, 29, 0x00000000, 0x00000060, 0x00000018, 0x00000000, 0x000000f0);
    ScheduleStep1(b, 30, 0x00000180, 0x0b131c03, 0xc2c4c700, 0x00000000, 0x93afb507);
    ScheduleStep1(b, 31, 0x2c4c700c, 0x00000030, 0x00000000, 0x00000018, 0x5898e048);
  }

  lemma ScheduleOne2()
    ensures W1(AbcBlock(), 32) == 0x8e9a9202 && W1(AbcBlock(), 33) == 0x00000600
    ensures W1(AbcBlock(), 34) == 0xb131c0f0 && W1(AbcBlock(), 35) == 0x16263bc6
    ensures W1(AbcBlock(), 36) == 0x4ebed41e && W1(AbcBlock(), 37) == 0x626380a1
    ensures W1(AbcBlock(), 38) == 0x16263806 && W1(AbcBlock(), 39) == 0x000018c0
    ensures W1(AbcBlock(), 40) == 0xd2e138c4 && W1(AbcBlock(), 41) == 0x00000f00
    ensures W1(AbcBlock(), 42) == 0x3afb5079 && W1(AbcBlock(), 43) == 0x898e04e5
    ensures W1(AbcBlock(), 44) == 0xe2ba3c2b && W1(AbcBlock(), 45) == 0x000060c0
    ensures W1(AbcBlock(), 46) == 0x053a37cd && W1(AbcBlock(), 47) == 0x74458547
  {
    hide W1, AbcBlock;
    var b := AbcBlock();
    ScheduleOne1();
    ScheduleStep1(b, 32, 0x000000f0, 0x85898ec1, 0x00000030, 0xc2c4c700, 0x8e9a9202);
    ScheduleStep1(b, 33, 0x93afb507, 0x16263806, 0x85898e01, 0x00000000, 0x00000600);
    ScheduleStep1(b, 34, 0x5898e048, 0x00000000, 0x00000000, 0x00000030, 0xb131c0f0);
    ScheduleStep1(b, 35, 0x8e9a9202, 0x00000180, 0x00000060, 0x85898e01, 0x16263bc6);
    ScheduleStep1(b, 36, 0x00000600, 0x2c4c700c, 0x0b131c03, 0x00000000, 0x4ebed41e);
    ScheduleStep1(b, 37, 0xb131c0f0, 0x000000f0, 0x00000030, 0x00000060, 0x626380a1);
    ScheduleStep1(b, 38, 0x16263bc6, 0x93afb507, 0x85898ec1, 0x0b131c03, 0x16263806);
    ScheduleStep1(b, 39, 0x4ebed41e, 0x5898e048, 0x16263806, 0x00000030, 0x000018c0);
    ScheduleStep1(b, 40, 0x626380a1, 0x8e9a9202, 0x00000000, 0x85898ec1, 0xd2e138c4);
    ScheduleStep1(b, 41, 0x16263806, 0x00000600, 0x00000180, 0x16263806, 0x00000f00);
    ScheduleStep1(b, 42, 0x000018c0, 0xb131c0f0, 0x2c4c700c, 0x00000000, 0x3afb5079);
    ScheduleStep1(b, 43, 0xd2e138c4, 0x16263bc6, 0x000000f0, 0x00000180, 0x898e04e5);
    ScheduleStep1(b, 44, 0x00000f00, 0x4ebed41e, 0x93afb507, 0x2c4c700c, 0xe2ba3c2b);
    ScheduleStep1(b, 45, 0x3afb5079, 0x626380a1, 0x5898e048, 0x000000f0, 0x000060c0);
    ScheduleStep1(b, 46, 0x898e04e5, 0x16263806, 0x8e9a9202, 0x93afb507, 0x053a37cd);
    ScheduleStep1(b, 47, 0xe2ba3c2b, 0x000018c0, 0x00000600, 0x5898e048, 0x74458547);
  }

  lemma ScheduleOne3()
    ensures W1(AbcBlock(), 48) == 0xda9415ed && W1(AbcBlock(), 49) == 0x26380a16
    ensures W1(AbcBlock(), 50) == 0x626383a1 && W1(AbcBlock(), 51) == 0x4ebf54de
    ensures W1(AbcBlock(), 52) == 0x3835b44b && W1(AbcBlock(), 53) == 0x0000f600
    ensures W1(AbcBlock(), 54) == 0x1e84c7a3 && W1(AbcBlock(), 55) == 0x98e04d98
    ensures W1(AbcBlock(), 56) == 0x651d16a0 && W1(AbcBlock(), 57) == 0x62658ca1
    ensures W1(AbcBlock(), 58) == 0x458544d6 && W1(AbcBlock(), 59) == 0x44584cb7
    ensures W1(AbcBlock(), 60) == 0x7ba06619 && W1(AbcBlock(), 61) == 0x6380aea2
    ensures W1(AbcBlock(), 62) == 0x0ae55269 && W1(AbcBlock(), 63) == 0x627b49a1
  {
    hide W1, AbcBlock;
    var b := AbcBlock();
    ScheduleOne2();
    ScheduleStep1(b, 48, 0x000060c0, 0xd2e138c4, 0xb131c0f0, 0x8e9a9202, 0xda9415ed);
    ScheduleStep1(b, 49, 0x053a37cd, 0x00000f00, 0x16263bc6, 0x00000600, 0x26380a16);
    ScheduleStep1(b, 50, 0x74458547, 0x3afb5079, 0x4ebed41e, 0xb131c0f0, 0x626383a1);
    ScheduleStep1(b, 51, 0xda9415ed, 0x898e04e5, 0x626380a1, 0x16263bc6, 0x4ebf54de);
    ScheduleStep1(b, 52, 0x26380a16, 0xe2ba3c2b, 0x16263806, 0x4ebed41e, 0x3835b44b);
    ScheduleStep1(b, 53, 0x626383a1, 0x000060c0, 0x000018c0, 0x626380a1, 0x0000f600);
    ScheduleStep1(b, 54, 0x4ebf54de, 0x053a37cd, 0xd2e138c4, 0x16263806, 0x1e84c7a3);
    ScheduleStep1(b, 55, 0x3835b44b, 0x74458547, 0x00000f00, 0x000018c0, 0x98e04d98);
    ScheduleStep1(b, 56, 0x0000f600, 0xda9415ed, 0x3afb5079, 0xd2e138c4, 0x651d16a0);
    ScheduleStep1(b, 57, 0x1e84c7a3, 0x26380a16, 0x898e04e5, 0x00000f00, 0x62658ca1);
    ScheduleStep1(b, 58, 0x98e04d98, 0x626383a1, 0xe2ba3c2b, 0x3afb5079, 0x458544d6);
    ScheduleStep1(b, 59, 0x651d16a0, 0x4ebf54de, 0x000060c0, 0x898e04e5, 0x44584cb7);
    ScheduleStep1(b, 60, 0x62658ca1, 0x3835b44b, 0x053a37cd, 0xe2ba3c2b, 0x7ba06619);
    ScheduleStep1(b, 61, 0x458544d6, 0x0000f600, 0x74458547, 0x000060c0, 0x6380aea2);
    ScheduleStep1(b, 62, 0x44584cb7, 0x1e84c7a3, 0xda9415ed, 0x053a37cd, 0x0ae55269);
    ScheduleStep1(b, 63, 0x7ba06619, 0x98e04d98, 0x26380a16, 0x74458547, 0x627b49a1);
  }

  lemma ScheduleOne4()
    ensures W1(AbcBlock(), 64) == 0x7cd45c9d && W1(AbcBlock(), 65) == 0x000f0000
    ensures W1(AbcBlock(), 66) == 0xfb50753a && W1(AbcBlock(), 67) == 0xec6765e8
    ensures W1(AbcBlock(), 68) == 0xba3c2be2 && W1(AbcBlock(), 69) == 0x0060c000
    ensures W1(AbcBlock(), 70) == 0x3a37cd05 && W1(AbcBlock(), 71) == 0x458546f4
    ensures W1(AbcBlock(), 72) == 0xb8599dd6 && W1(AbcBlock(), 73) == 0x380a1a26
    ensures W1(AbcBlock(), 74) == 0x01e02203 && W1(AbcBlock(), 75) == 0xe7cc3456
    ensures W1(AbcBlock(), 76) == 0xe6e60b69 && W1(AbcBlock(), 77) == 0x00f60a00
    ensures W1(AbcBlock(), 78) == 0x5795ef4f && W1(AbcBlock(), 79) == 0x822e0879
  {
    hide W1, AbcBlock;
    var b := AbcBlock();
    ScheduleOne3();
    ScheduleStep1(b, 64, 0x6380aea2, 0x651d16a0, 0x626383a1, 0xda9415ed, 0x7cd45c9d);
    ScheduleStep1(b, 65, 0x0ae55269, 0x62658ca1, 0x4ebf54de, 0x26380a16, 0x000f0000);
    ScheduleStep1(b, 66, 0x627b49a1, 0x458544d6, 0x3835b44b, 0x626383a1, 0xfb50753a);
    ScheduleStep1(b, 67, 0x7cd45c9d, 0x44584cb7, 0x0000f600, 0x4ebf54de, 0xec6765e8);
    ScheduleStep1(b, 68, 0x000f0000, 0x7ba06619, 0x1e84c7a3, 0x3835b44b, 0xba3c2be2);
    ScheduleStep1(b, 69, 0xfb50753a, 0x6380aea2, 0x98e04d98, 0x0000f600, 0x0060c000);
    ScheduleStep1(b, 70, 0xec6765e8, 0x0ae55269, 0x651d16a0, 0x1e84c7a3, 0x3a37cd05);
    ScheduleStep1(b, 71, 0xba3c2be2, 0x627b49a1, 0x62658ca1, 0x98e04d98, 0x458546f4);
    ScheduleStep1(b, 72, 0x0060c000, 0x7cd45c9d, 0x458544d6, 0x651d16a0, 0xb8599dd6);
    ScheduleStep1(b, 73, 0x3a37cd05, 0x000f0000, 0x44584cb7, 0x62658ca1, 0x380a1a26);
    ScheduleStep1(b, 74, 0x458546f4, 0xfb50753a, 0x7ba06619, 0x458544d6, 0x01e02203);
    ScheduleStep1(b, 75, 0xb8599dd6, 0xec6765e8, 0x6380aea2, 0x44584cb7, 0xe7cc3456);
    ScheduleStep1(b, 76, 0x380a1a26, 0xba3c2be2, 0x0ae55269, 0x7ba06619, 0xe6e60b69);
    ScheduleStep1(b, 77, 0x01e02203, 0x0060c000, 0x627b49a1, 0x6380aea2, 0x00f60a00);
    ScheduleStep1(b, 78, 0xe7cc3456, 0x3a37cd05, 0x7cd45c9d, 0x0ae55269, 0x5795ef4f);
    ScheduleStep1(b, 79, 0xe6e60b69, 0x458546f4, 0x000f0000, 0x627b49a1, 0x822e0879);
  }

  lemma RoundsOne16() returns (r: Regs5)
    ensures r == Rounds1(First1(), AbcBlock(), 16)
    ensures r == Regs5(0x20bdd62f, 0x196bee77, 0x644a3da5, 0x1181ed99, 0x18c623f9)
  {
    hide W1, Rounds1, AbcBlock;
    var b := AbcBlock();
    forall t: nat | t < 16
      ensures W1(b, t) == if t == 0 then 0x61626380 else if t < 15 then 0 else 24
    {
      Words1(t);
    }
    r := NoRounds1();
    hide First1;
    r := RoundStep1(b, 0, r, 0x61626380, 0x0116fc33, 0x7bf36ae2);
    r := RoundStep1(b, 1, r, 0x00000000, 0x8990536d, 0x59d148c0);
    r := RoundStep1(b, 2, r, 0x00000000, 0xa1390f08, 0xc045bf0c);
    r := RoundStep1(b, 3, r, 0x00000000, 0xcdd8e11b, 0x626414db);
    r := RoundStep1(b, 4, r, 0x00000000, 0xcfd499de, 0x284e43c2);
    r := RoundStep1(b, 5, r, 0x00000000, 0x3fc7ca40, 0xf3763846);
    r := RoundStep1(b, 6, r, 0x00000000, 0x993e30c1, 0xb3f52677);
    r := RoundStep1(b, 7, r, 0x00000000, 0x9e8c07d4, 0x0ff1f290);
    r := RoundStep1(b, 8, r, 0x00000000, 0x4b6ae328, 0x664f8c30);
    r := RoundStep1(b, 9, r, 0x00000000, 0x8351f929, 0x27a301f5);
    r := RoundStep1(b, 10, r, 0x00000000, 0xfbda9e89, 0x12dab8ca);
    r := RoundStep1(b, 11, r, 0x00000000, 0x63188fe4, 0x60d47e4a);
    r := RoundStep1(b, 12, r, 0x00000000, 0x4607b664, 0x7ef6a7a2);
    r := RoundStep1(b, 13, r, 0x00000000, 0x9128f695, 0x18c623f9);
    r := RoundStep1(b, 14, r, 0x00000000, 0x196bee77, 0x1181ed99);
    r := RoundStep1(b, 15, r, 0x00000018, 0x20bdd62f, 0x644a3da5);
  }

  lemma RoundsOne32() returns (r: Regs5)
    ensures r == Rounds1(First1(), AbcBlock(), 32)
    ensures r == Regs5(0x3b845d33, 0x1267b407, 0x717eebd7, 0xa0dc2d4b, 0xd2aa1365)
  {
    hide W1, Rounds1, AbcBlock;
    var b := AbcBlock();
    ScheduleOne1();
    r := RoundsOne16();
    hide First1;
    r := RoundStep1(b, 16, r, 0xc2c4c700, 0x4e925823, 0xc65afb9d);
    r := RoundStep1(b, 17, r, 0x00000000, 0x82aa6728, 0xc82f758b);
    r := RoundStep1(b, 18, r, 0x00000030, 0xdc64901d, 0xd3a49608);
    r := RoundStep1(b, 19, r, 0x85898e01, 0xfd9e1d7d, 0x20aa99ca);
    r := RoundStep1(b, 20, r, 0x00000000, 0x1a37b0ca, 0x77192407);
    r := RoundStep1(b, 21, r, 0x00000060, 0x33a23bfc, 0x7f67875f);
    r := RoundStep1(b, 22, r, 0x0b131c03, 0x21283486, 0x868dec32);
    r := RoundStep1(b, 23, r, 0x00000030, 0xd541f12d, 0x0ce88eff);
    r := RoundStep1(b, 24, r, 0x85898ec1, 0xc7567dc6, 0x884a0d21);
    r := RoundStep1(b, 25, r, 0x16263806, 0x48413ba4, 0x75507c4b);
    r := RoundStep1(b, 26, r, 0x00000000, 0xbe35fbd5, 0xb1d59f71);
    r := RoundStep1(b, 27, r, 0x00000180, 0x4aa84d97, 0x12104ee9);
    r := RoundStep1(b, 28, r, 0x2c4c700c, 0x8370b52e, 0x6f8d7ef5);
    r := RoundStep1(b, 29, r, 0x000000f0, 0xc5fbaf5d, 0xd2aa1365);
    r := RoundStep1(b, 30, r, 0x93afb507, 0x1267b407, 0xa0dc2d4b);
    r := RoundStep1(b, 31, r, 0x5898e048, 0x3b845d33, 0x717eebd7);
  }

  lemma RoundsOne48() returns (r: Regs5)
    ensures r == Rounds1(First1(), AbcBlock(), 48)
    ensures r == Regs5(0xbead02ca, 0xa01b846c, 0x8714787c, 0x503ca382, 0xfb86c6ab)
  {
    hide W1, Rounds1, AbcBlock;
    var b := AbcBlock();
    ScheduleOne2();
    r := RoundsOne32();
    hide First1;
    r := RoundStep1(b, 32, r, 0x8e9a9202, 0x046faa0a, 0xc499ed01);
    r := RoundStep1(b, 33, r, 0x00000600, 0x2c0ebc11, 0xcee1174c);
    r := RoundStep1(b, 34, r, 0xb131c0f0, 0x21796ad4, 0x811bea82);
    r := RoundStep1(b, 35, r, 0x16263bc6, 0xdcbbb0cb, 0x4b03af04);
    r := RoundStep1(b, 36, r, 0x4ebed41e, 0x0f511fd8, 0x085e5ab5);
    r := RoundStep1(b, 37, r, 0x626380a1, 0xdc63973f, 0xf72eec32);
    r := RoundStep1(b, 38, r, 0x16263806, 0x4c986405, 0x03d447f6);
    r := RoundStep1(b, 39, r, 0x000018c0, 0x32de1cba, 0xf718e5cf);
    r := RoundStep1(b, 40, r, 0xd2e138c4, 0xfc87dedf, 0x53261901);
    r := RoundStep1(b, 41, r, 0x00000f00, 0x970a0d5c, 0x8cb7872e);
    r := RoundStep1(b, 42, r, 0x3afb5079, 0x7f193dc5, 0xff21f7b7);
    r := RoundStep1(b, 43, r, 0x898e04e5, 0xee1b1aaf, 0x25c28357);
    r := RoundStep1(b, 44, r, 0xe2ba3c2b, 0x40f28e09, 0x5fc64f71);
    r := RoundStep1(b, 45, r, 0x000060c0, 0x1c51e1f2, 0xfb86c6ab);
    r := RoundStep1(b, 46, r, 0x053a37cd, 0xa01b846c, 0x503ca382);
    r := RoundStep1(b, 47, r, 0x74458547, 0xbead02ca, 0x8714787c);
  }

  lemma RoundsOne64() returns (r: Regs5)
    ensures r == Rounds1(First1(), AbcBlock(), 64)
    ensures r == Regs5(0x6b61c9e1, 0xb66c020b, 0x9523272c, 0xf5d5b051, 0x8fd4b796)
  {
    hide W1, Rounds1, AbcBlock;
    var b := AbcBlock();
    ScheduleOne3();
    r := RoundsOne48();
    hide First1;
    r := RoundStep1(b, 48, r, 0xda9415ed, 0xbaf39337, 0x2806e11b);
    r := RoundStep1(b, 49, r, 0x26380a16, 0x120731c5, 0xafab40b2);
    r := RoundStep1(b, 50, r, 0x626383a1, 0x641db2ce, 0xeebce4cd);
    r := RoundStep1(b, 51, r, 0x4ebf54de, 0x3847ad66, 0x4481cc71);
    r := RoundStep1(b, 52, r, 0x3835b44b, 0xe490436d, 0x99076cb3);
    r := RoundStep1(b, 53, r, 0x0000f600, 0x27e9f1d8, 0x8e11eb59);
    r := RoundStep1(b, 54, r, 0x1e84c7a3, 0x7b71f76d, 0x792410db);
    r := RoundStep1(b, 55, r, 0x98e04d98, 0x5e6456af, 0x09fa7c76);
    r := RoundStep1(b, 56, r, 0x651d16a0, 0xc846093f, 0x5edc7ddb);
    r := RoundStep1(b, 57, r, 0x62658ca1, 0xd262ff50, 0xd79915ab);
    r := RoundStep1(b, 58, r, 0x458544d6, 0x09d785fd, 0xf211824f);
    r := RoundStep1(b, 59, r, 0x44584cb7, 0x3f52de5a, 0x3498bfd4);
    r := RoundStep1(b, 60, r, 0x7ba06619, 0xd756c147, 0x4275e17f);
    r := RoundStep1(b, 61, r, 0x6380aea2, 0x548c9cb2, 0x8fd4b796);
    r := RoundStep1(b, 62, r, 0x0ae55269, 0xb66c020b, 0xf5d5b051);
    r := RoundStep1(b, 63, r, 0x627b49a1, 0x6b61c9e1, 0x9523272c);
  }

  lemma RoundsOne80() returns (r: Regs5)
    ensures r == Rounds1(First1(), AbcBlock(), 80)
    ensures r == Regs5(0x42541b35, 0x5738d5e1, 0x21834873, 0x681e6df6, 0xd8fdf6ad)
  {
    hide W1, Rounds1, AbcBlock;
    var b := AbcBlock();
    ScheduleOne4();
    r := RoundsOne64();
    hide First1;
    r := RoundStep1(b, 64, r, 0x7cd45c9d, 0x19dfa7ac, 0xed9b0082);
    r := RoundStep1(b, 65, r, 0x000f0000, 0x101655f9, 0x5ad87278);
    r := RoundStep1(b, 66, r, 0xfb50753a, 0x0c3df2b4, 0x0677e9eb);
    r := RoundStep1(b, 67, r, 0xec6765e8, 0x78dd4d2b, 0x4405957e);
    r := RoundStep1(b, 68, r, 0xba3c2be2, 0x497093c0, 0x030f7cad);
    r := RoundStep1(b, 69, r, 0x0060c000, 0x3f2588c2, 0xde37534a);
    r := RoundStep1(b, 70, r, 0x3a37cd05, 0xc199f8c7, 0x125c24f0);
    r := RoundStep1(b, 71, r, 0x458546f4, 0x39859de7, 0x8fc96230);
    r := RoundStep1(b, 72, r, 0xb8599dd6, 0xedb42de4, 0xf0667e31);
    r := RoundStep1(b, 73, r, 0x380a1a26, 0x11793f6f, 0xce616779);
    r := RoundStep1(b, 74, r, 0x01e02203, 0x5ee76897, 0x3b6d0b79);
    r := RoundStep1(b, 75, r, 0xe7cc3456, 0x63f7dab7, 0xc45e4fdb);
    r := RoundStep1(b, 76, r, 0xe6e60b69, 0xa079b7d9, 0xd7b9da25);
    r := RoundStep1(b, 77, r, 0x00f60a00, 0x860d21cc, 0xd8fdf6ad);
    r := RoundStep1(b, 78, r, 0x5795ef4f, 0x5738d5e1, 0x681e6df6);
    r := RoundStep1(b, 79, r, 0x822e0879, 0x42541b35, 0x21834873);
  }

  lemma NoRounds1() returns (r: Regs5)
    ensures r == Rounds1(First1(), AbcBlock(), 0) == Regs5(0x67452301, 0xefcdab89, 0x98badcfe, 0x10325476, 0xc3d2e1f0)
  {
    hide AbcBlock;
    r := First1();
  }

  lemma AbcSum1(r: Regs5)
    requires r == Rounds1(First1(), AbcBlock(), 80) == Regs5(0x42541b35, 0x5738d5e1, 0x21834873, 0x681e6df6, 0xd8fdf6ad)
    ensures Compress1(First1(), AbcBlock())
         == Regs5(0xa9993e36, 0x4706816a, 0xba3e2571, 0x7850c26c, 0x9cd0d89d)
  {
    hide Rounds1, AbcBlock;
  }

  /** The digest of "abc". */
  lemma Sha1OfAbc()
    ensures Sha1(Abc())
         == [0xa9, 0x99, 0x3e, 0x36, 0x47, 0x06, 0x81, 0x6a, 0xba, 0x3e,
             0x25, 0x71, 0x78, 0x50, 0xc2, 0x6c, 0x9c, 0xd0, 0xd8, 0x9d]
  {
    AbcPadded();
    var r := RoundsOne80();
    AbcSum1(r);
    OneBlockChain(AbcBlock());
    Bytes1();
    hide AbcBlock, Compress1, First1, Digest1, Pad, Chain1;
  }

  lemma Bytes1()
    ensures Digest1(Regs5(0xa9993e36, 0x4706816a, 0xba3e2571, 0x7850c26c, 0x9cd0d89d))
         == [0xa9, 0x99, 0x3e, 0x36, 0x47, 0x06, 0x81, 0x6a, 0xba, 0x3e,
             0x25, 0x71, 0x78, 0x50, 0xc2, 0x6c, 0x9c, 0xd0, 0xd8, 0x9d]
  {
    Bytes1Words();
    hide WordBytes, WordsBytes;
    var ws: seq<bv32>, bs: Octets := [], [];
    NoWords();
    WordsCons(0x9cd0d89d, ws, [0x9c, 0xd0, 0xd8, 0x9d], bs);
    ws, bs := [0x9cd0d89d] + ws, [0x9c, 0xd0, 0xd8, 0x9d] + bs;
    WordsCons(0x7850c26c, ws, [0x78, 0x50, 0xc2, 0x6c], bs);
    ws, bs := [0x7850c26c] + ws, [0x78, 0x50, 0xc2, 0x6c] + bs;
    WordsCons(0xba3e2571, ws, [0xba, 0x3e, 0x25, 0x71], bs);
    ws, bs := [0xba3e2571] + ws, [0xba, 0x3e, 0x25, 0x71] + bs;
    WordsCons(0x4706816a, ws, [0x47, 0x06, 0x81, 0x6a], bs);
    ws, bs := [0x4706816a] + ws, [0x47, 0x06, 0x81, 0x6a] + bs;
    WordsCons(0xa9993e36, ws, [0xa9, 0x99, 0x3e, 0x36], bs);
    ws, bs := [0xa9993e36] + ws, [0xa9, 0x99, 0x3e, 0x36] + bs;
    assert ws == [0xa9993e36, 0x4706816a, 0xba3e2571, 0x7850c26c, 0x9cd0d89d];
  }

  lemma Bytes1Words()
    ensures WordBytes(0xa9993e36) == [0xa9, 0x99, 0x3e, 0x36]
    ensures WordBytes(0x4706816a) == [0x47, 0x06, 0x81, 0x6a]
    ensures WordBytes(0xba3e2571) == [0xba, 0x3e, 0x25, 0x71]
    ensures WordBytes(0x7850c26c) == [0x78, 0x50, 0xc2, 0x6c]
    ensures WordBytes(0x9cd0d89d) == [0x9c, 0xd0, 0xd8, 0x9d]
  {
  }
}
