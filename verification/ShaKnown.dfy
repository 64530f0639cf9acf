/** The known answer of FIPS 180-4: the hash of the message "abc", round by round. It fixes the
    rotations, the constants and the order of bytes that the other proofs only carry along. */
module ShaKnown {
  import opened ByteTypes
  import opened ShaSpec
  import opened ShaCode
  import opened ShaD64

  // ---------------------------------------------------------------- the message schedule

  /** The one block: the message, 0x80, zeroes, and the length 24. */
  const ABC0: Words := [
    0x61626380, 0x00000000, 0x00000000, 0x00000000, 0x00000000, 0x00000000, 0x00000000, 0x00000000,
    0x00000000, 0x00000000, 0x00000000, 0x00000000, 0x00000000, 0x00000000, 0x00000000, 0x00000018]

  const ABC16: Words := [
    0x61626380, 0x000f0000, 0x7da86405, 0x600003c6, 0x3e9d7b78, 0x0183fc00, 0x12dcbfdb, 0xe2e2c38e,
    0xc8215c1a, 0xb73679a2, 0xe5bc3909, 0x32663c5b, 0x9d209d67, 0xec8726cb, 0x702138a4, 0xd3b7973b]

  const ABC32: Words := [
    0x93f5997f, 0x3b68ba73, 0xaff4ffc1, 0xf10a5c62, 0x0a8b3996, 0x72af830a, 0x9409e33e, 0x24641522,
    0x9f47bf94, 0xf0a64f5a, 0x3e246a79, 0x27333ba3, 0x0c4763f2, 0x840abf27, 0x7a290d5d, 0x065c43da]

  const ABC48: Words := [
    0xfb3e89cb, 0xcc7617db, 0xb9e66c34, 0xa9993667, 0x84badedd, 0xc21462bc, 0x1487472c, 0xb20f7a99,
    0xef57b9cd, 0xebe6b238, 0x9fe3095e, 0x78bc8d4b, 0xa43fcf15, 0x668b2ff8, 0xeeaba2cc, 0x12b1edeb]

  lemma AbcRow16()
    ensures Follows(ABC0, ABC16)
  {
  }

  lemma AbcRow32()
    ensures Follows(ABC16, ABC32)
  {
  }

  lemma AbcRow48()
    ensures Follows(ABC32, ABC48)
  {
  }

  // ---------------------------------------------------------------- what each round adds

  const KEYS0: Words := [
    0xa3ec9318, 0x71374491, 0xb5c0fbcf, 0xe9b5dba5, 0x3956c25b, 0x59f111f1, 0x923f82a4, 0xab1c5ed5,
    0xd807aa98, 0x12835b01, 0x243185be, 0x550c7dc3, 0x72be5d74, 0x80deb1fe, 0x9bdc06a7, 0xc19bf18c]

  const KEYS16: Words := [
    0x45fdcd41, 0xefcd4786, 0x8d6a01cb, 0x840ca592, 0x6c86a7e7, 0x4bf880aa, 0x6f8d69b7, 0x59dc4c68,
    0x605fad6c, 0x5f68400f, 0x95bf60d1, 0xf1bfbc22, 0x6400a95a, 0xc22eb812, 0x76eb9bf5, 0xe7e0c0a2]

  const KEYS32: Words := [
    0xbbaca404, 0x6983dbab, 0xfd216dbd, 0x44426975, 0x6f95acea, 0xe9198dc5, 0x15ccac6c, 0xb6d641a7,
    0x4207a835, 0x98c0b5a5, 0x006ff5e9, 0xee9f8d46, 0xddda4c0b, 0x5aa3c54b, 0x6e3742e2, 0x16c6e44a]

  const KEYS48: Words := [
    0x14e34ae1, 0xeaad83e3, 0xe12ee380, 0xde49f31c, 0xbdd6eb90, 0x10ed0d06, 0x7024117b, 0x1a3dea8c,
    0x63e73cbb, 0x648c15a7, 0x24ab8172, 0x05838f53, 0x34fecf0f, 0x0adb9ce3, 0xada546c3, 0xd92366dd]

  lemma Sums0()
    ensures Adds(K0, ABC0, KEYS0, 0)
  {
  }

  lemma Sums8()
    ensures Adds(K0, ABC0, KEYS0, 8)
  {
  }

  lemma Sums16()
    ensures Adds(K16, ABC16, KEYS16, 0)
  {
  }

  lemma Sums24()
    ensures Adds(K16, ABC16, KEYS16, 8)
  {
  }

  lemma Sums32()
    ensures Adds(K32, ABC32, KEYS32, 0)
  {
  }

  lemma Sums40()
    ensures Adds(K32, ABC32, KEYS32, 8)
  {
  }

  lemma Sums48()
    ensures Adds(K48, ABC48, KEYS48, 0)
  {
  }

  lemma Sums56()
    ensures Adds(K48, ABC48, KEYS48, 8)
  {
  }

  lemma AbcKeys(m: Words)
    requires m == ABC0
    ensures Keys(KEYS0, m, 0) && Keys(KEYS16, m, 16) && Keys(KEYS32, m, 32) && Keys(KEYS48, m, 48)
  {
    hide *;
    WindowZero(m);
    AbcRow16();
    AbcRow32();
    AbcRow48();
    RowIs(m, 0, ABC0, ABC16);
    RowIs(m, 16, ABC16, ABC32);
    RowIs(m, 32, ABC32, ABC48);
    Sums0();
    Sums8();
    Sums16();
    Sums24();
    Sums32();
    Sums40();
    Sums48();
    Sums56();
    AddsIs(K0, ABC0, KEYS0);
    AddsIs(K16, ABC16, KEYS16);
    AddsIs(K32, ABC32, KEYS32);
    AddsIs(K48, ABC48, KEYS48);
    FirstKeys(m);
  }

  // ---------------------------------------------------------------- the rounds

  // The working variables after every eighth round.

  const STATE0 := INITIAL
  const STATE8 := Regs(0x85a07b5f, 0xe5030380, 0x2b4209f5, 0x04409a6a,
    0x0c657a79, 0x9b27a401, 0x714260ad, 0x43ada245)
  const STATE16 := Regs(0xb0fa238e, 0xc0645fde, 0xd932eb16, 0x87912990,
    0x07590dcd, 0x0b92f20c, 0x745a48de, 0x1e578218)
  const STATE24 := Regs(0xc5d53d8d, 0xa7a3623f, 0xc2606d6d, 0x9dc68b63,
    0xaa47c347, 0x49f5114a, 0xe1257970, 0x8ada8930)
  const STATE32 := Regs(0x73b33bf5, 0xea992a22, 0xa0060b30, 0x363482c9,
    0xba591112, 0x0109ab3a, 0xade79437, 0x6112a3b7)
  const STATE40 := Regs(0x79ea687a, 0x6dc57a8a, 0x34df1604, 0x41a65cb1,
    0x1efbc0a0, 0xf0781bc8, 0xa507a53d, 0x0772a26b)
  const STATE48 := Regs(0x4172328d, 0xa14c14b0, 0x72ab4b91, 0x26628815,
    0xfecf0bc6, 0xd57b94a9, 0xb7755da1, 0xa80f11f0)
  const STATE56 := Regs(0x38cc9913, 0x3ec45cdb, 0xf5702fdb, 0x101fd28f,
    0x54cb266b, 0xe50e1b4f, 0x9f4787c3, 0x529e7d00)
  const STATE64 := Regs(0x506e3058, 0xd39a2165, 0x04d24d6c, 0xb85e2ce9,
    0x5ef50f24, 0xfb121210, 0x948d25b6, 0x961f4894)

  lemma Steps0()
    ensures EightSteps(STATE0, KEYS0[0], KEYS0[1], KEYS0[2], KEYS0[3],
      KEYS0[4], KEYS0[5], KEYS0[6], KEYS0[7]) == STATE8
  {
    var k := KEYS0;
    var Regs(a, b, c, d, e, f, g, h) := STATE0;
    var a1, a2, a3, a4: word := 0x5d6aebcd, 0x5a6ad9ad, 0xc8c347a7, 0xd550f666;
    var e1, e2, e3, e4: word := 0xfa2a4622, 0x78ce7989, 0xf92939eb, 0x24e00850;
    var a5, a6, a7, a8: word := 0x04409a6a, 0x2b4209f5, 0xe5030380, 0x85a07b5f;
    var e5, e6, e7, e8: word := 0x43ada245, 0x714260ad, 0x9b27a401, 0x0c657a79;
    assert Step(Regs(a, b, c, d, e, f, g, h), k[0]) == Regs(a1, a, b, c, e1, e, f, g);
    assert Step(Regs(a1, a, b, c, e1, e, f, g), k[1]) == Regs(a2, a1, a, b, e2, e1, e, f);
    assert Step(Regs(a2, a1, a, b, e2, e1, e, f), k[2]) == Regs(a3, a2, a1, a, e3, e2, e1, e);
    assert Step(Regs(a3, a2, a1, a, e3, e2, e1, e), k[3]) == Regs(a4, a3, a2, a1, e4, e3, e2, e1);
    assert Step(Regs(a4, a3, a2, a1, e4, e3, e2, e1), k[4]) == Regs(a5, a4, a3, a2, e5, e4, e3, e2);
    assert Step(Regs(a5, a4, a3, a2, e5, e4, e3, e2), k[5]) == Regs(a6, a5, a4, a3, e6, e5, e4, e3);
    assert Step(Regs(a6, a5, a4, a3, e6, e5, e4, e3), k[6]) == Regs(a7, a6, a5, a4, e7, e6, e5, e4);
    assert Step(Regs(a7, a6, a5, a4, e7, e6, e5, e4), k[7]) == Regs(a8, a7, a6, a5, e8, e7, e6, e5);
  }

  lemma Steps8()
    ensures EightSteps(STATE8, KEYS0[8], KEYS0[9], KEYS0[10], KEYS0[11],
      KEYS0[12], KEYS0[13], KEYS0[14], KEYS0[15]) == STATE16
  {
    var k := KEYS0;
    var Regs(a, b, c, d, e, f, g, h) := STATE8;
    var a1, a2, a3, a4: word := 0x8e04ecb9, 0x8c87346b, 0x4798a3f4, 0xf71fc5a9;
    var e1, e2, e3, e4: word := 0x32ca2d8c, 0x1cc92596, 0x436b23e8, 0x816fd6e9;
    var a5, a6, a7, a8: word := 0x87912990, 0xd932eb16, 0xc0645fde, 0xb0fa238e;
    var e5, e6, e7, e8: word := 0x1e578218, 0x745a48de, 0x0b92f20c, 0x07590dcd;
    assert Step(Regs(a, b, c, d, e, f, g, h), k[8]) == Regs(a1, a, b, c, e1, e, f, g);
    assert Step(Regs(a1, a, b, c, e1, e, f, g), k[9]) == Regs(a2, a1, a, b, e2, e1, e, f);
    assert Step(Regs(a2, a1, a, b, e2, e1, e, f), k[10]) == Regs(a3, a2, a1, a, e3, e2, e1, e);
    assert Step(Regs(a3, a2, a1, a, e3, e2, e1, e), k[11]) == Regs(a4, a3, a2, a1, e4, e3, e2, e1);
    assert Step(Regs(a4, a3, a2, a1, e4, e3, e2, e1), k[12]) == Regs(a5, a4, a3, a2, e5, e4, e3, e2);
    assert Step(Regs(a5, a4, a3, a2, e5, e4, e3, e2), k[13]) == Regs(a6, a5, a4, a3, e6, e5, e4, e3);
    assert Step(Regs(a6, a5, a4, a3, e6, e5, e4, e3), k[14]) == Regs(a7, a6, a5, a4, e7, e6, e5, e4);
    assert Step(Regs(a7, a6, a5, a4, e7, e6, e5, e4), k[15]) == Regs(a8, a7, a6, a5, e8, e7, e6, e5);
  }

  lemma Steps16()
    ensures EightSteps(STATE16, KEYS16[0], KEYS16[1], KEYS16[2], KEYS16[3],
      KEYS16[4], KEYS16[5], KEYS16[6], KEYS16[7]) == STATE24
  {
    var k := KEYS16;
    var Regs(a, b, c, d, e, f, g, h) := STATE16;
    var a1, a2, a3, a4: word := 0x21da9a9b, 0xc2fbd9d1, 0xfe777bbf, 0xe1f20c33;
    var e1, e2, e3, e4: word := 0x8034229c, 0x846ee454, 0xcc899961, 0xb0638179;
    var a5, a6, a7, a8: word := 0x9dc68b63, 0xc2606d6d, 0xa7a3623f, 0xc5d53d8d;
    var e5, e6, e7, e8: word := 0x8ada8930, 0xe1257970, 0x49f5114a, 0xaa47c347;
    assert Step(Regs(a, b, c, d, e, f, g, h), k[0]) == Regs(a1, a, b, c, e1, e, f, g);
    assert Step(Regs(a1, a, b, c, e1, e, f, g), k[1]) == Regs(a2, a1, a, b, e2, e1, e, f);
    assert Step(Regs(a2, a1, a, b, e2, e1, e, f), k[2]) == Regs(a3, a2, a1, a, e3, e2, e1, e);
    assert Step(Regs(a3, a2, a1, a, e3, e2, e1, e), k[3]) == Regs(a4, a3, a2, a1, e4, e3, e2, e1);
    assert Step(Regs(a4, a3, a2, a1, e4, e3, e2, e1), k[4]) == Regs(a5, a4, a3, a2, e5, e4, e3, e2);
    assert Step(Regs(a5, a4, a3, a2, e5, e4, e3, e2), k[5]) == Regs(a6, a5, a4, a3, e6, e5, e4, e3);
    assert Step(Regs(a6, a5, a4, a3, e6, e5, e4, e3), k[6]) == Regs(a7, a6, a5, a4, e7, e6, e5, e4);
    assert Step(Regs(a7, a6, a5, a4, e7, e6, e5, e4), k[7]) == Regs(a8, a7, a6, a5, e8, e7, e6, e5);
  }

  lemma Steps24()
    ensures EightSteps(STATE24, KEYS16[8], KEYS16[9], KEYS16[10], KEYS16[11],
      KEYS16[12], KEYS16[13], KEYS16[14], KEYS16[15]) == STATE32
  {
    var k := KEYS16;
    var Regs(a, b, c, d, e, f, g, h) := STATE24;
    var a1, a2, a3, a4: word := 0x1c2c2838, 0xcde8037d, 0xb62ec4bc, 0x77d37528;
    var e1, e2, e3, e4: word := 0x2823ef91, 0x14383d8e, 0xc74c6516, 0xedffbff8;
    var a5, a6, a7, a8: word := 0x363482c9, 0xa0060b30, 0xea992a22, 0x73b33bf5;
    var e5, e6, e7, e8: word := 0x6112a3b7, 0xade79437, 0x0109ab3a, 0xba591112;
    assert Step(Regs(a, b, c, d, e, f, g, h), k[8]) == Regs(a1, a, b, c, e1, e, f, g);
    assert Step(Regs(a1, a, b, c, e1, e, f, g), k[9]) == Regs(a2, a1, a, b, e2, e1, e, f);
    assert Step(Regs(a2, a1, a, b, e2, e1, e, f), k[10]) == Regs(a3, a2, a1, a, e3, e2, e1, e);
    assert Step(Regs(a3, a2, a1, a, e3, e2, e1, e), k[11]) == Regs(a4, a3, a2, a1, e4, e3, e2, e1);
    assert Step(Regs(a4, a3, a2, a1, e4, e3, e2, e1), k[12]) == Regs(a5, a4, a3, a2, e5, e4, e3, e2);
    assert Step(Regs(a5, a4, a3, a2, e5, e4, e3, e2), k[13]) == Regs(a6, a5, a4, a3, e6, e5, e4, e3);
    assert Step(Regs(a6, a5, a4, a3, e6, e5, e4, e3), k[14]) == Regs(a7, a6, a5, a4, e7, e6, e5, e4);
    assert Step(Regs(a7, a6, a5, a4, e7, e6, e5, e4), k[15]) == Regs(a8, a7, a6, a5, e8, e7, e6, e5);
  }

  lemma Steps32()
    ensures EightSteps(STATE32, KEYS32[0], KEYS32[1], KEYS32[2], KEYS32[3],
      KEYS32[4], KEYS32[5], KEYS32[6], KEYS32[7]) == STATE40
  {
    var k := KEYS32;
    var Regs(a, b, c, d, e, f, g, h) := STATE32;
    var a1, a2, a3, a4: word := 0x98e12507, 0xfe604df5, 0xa9a7738c, 0x65a0cfe4;
    var e1, e2, e3, e4: word := 0x9cd9f5f6, 0x59249dd3, 0x085f3833, 0xf4b002d6;
    var a5, a6, a7, a8: word := 0x41a65cb1, 0x34df1604, 0x6dc57a8a, 0x79ea687a;
    var e5, e6, e7, e8: word := 0x0772a26b, 0xa507a53d, 0xf0781bc8, 0x1efbc0a0;
    assert Step(Regs(a, b, c, d, e, f, g, h), k[0]) == Regs(a1, a, b, c, e1, e, f, g);
    assert Step(Regs(a1, a, b, c, e1, e, f, g), k[1]) == Regs(a2, a1, a, b, e2, e1, e, f);
    assert Step(Regs(a2, a1, a, b, e2, e1, e, f), k[2]) == Regs(a3, a2, a1, a, e3, e2, e1, e);
    assert Step(Regs(a3, a2, a1, a, e3, e2, e1, e), k[3]) == Regs(a4, a3, a2, a1, e4, e3, e2, e1);
    assert Step(Regs(a4, a3, a2, a1, e4, e3, e2, e1), k[4]) == Regs(a5, a4, a3, a2, e5, e4, e3, e2);
    assert Step(Regs(a5, a4, a3, a2, e5, e4, e3, e2), k[5]) == Regs(a6, a5, a4, a3, e6, e5, e4, e3);
    assert Step(Regs(a6, a5, a4, a3, e6, e5, e4, e3), k[6]) == Regs(a7, a6, a5, a4, e7, e6, e5, e4);
    assert Step(Regs(a7, a6, a5, a4, e7, e6, e5, e4), k[7]) == Regs(a8, a7, a6, a5, e8, e7, e6, e5);
  }

  lemma Steps40()
    ensures EightSteps(STATE40, KEYS32[8], KEYS32[9], KEYS32[10], KEYS32[11],
      KEYS32[12], KEYS32[13], KEYS32[14], KEYS32[15]) == STATE48
  {
    var k := KEYS32;
    var Regs(a, b, c, d, e, f, g, h) := STATE40;
    var a1, a2, a3, a4: word := 0xd6670766, 0xdf46652f, 0x17aa0dfe, 0x9d4baf93;
    var e1, e2, e3, e4: word := 0x26352d63, 0x838b2711, 0xdecd4715, 0xfda24c2e;
    var a5, a6, a7, a8: word := 0x26628815, 0x72ab4b91, 0xa14c14b0, 0x4172328d;
    var e5, e6, e7, e8: word := 0xa80f11f0, 0xb7755da1, 0xd57b94a9, 0xfecf0bc6;
    assert Step(Regs(a, b, c, d, e, f, g, h), k[8]) == Regs(a1, a, b, c, e1, e, f, g);
    assert Step(Regs(a1, a, b, c, e1, e, f, g), k[9]) == Regs(a2, a1, a, b, e2, e1, e, f);
    assert Step(Regs(a2, a1, a, b, e2, e1, e, f), k[10]) == Regs(a3, a2, a1, a, e3, e2, e1, e);
    assert Step(Regs(a3, a2, a1, a, e3, e2, e1, e), k[11]) == Regs(a4, a3, a2, a1, e4, e3, e2, e1);
    assert Step(Regs(a4, a3, a2, a1, e4, e3, e2, e1), k[12]) == Regs(a5, a4, a3, a2, e5, e4, e3, e2);
    assert Step(Regs(a5, a4, a3, a2, e5, e4, e3, e2), k[13]) == Regs(a6, a5, a4, a3, e6, e5, e4, e3);
    assert Step(Regs(a6, a5, a4, a3, e6, e5, e4, e3), k[14]) == Regs(a7, a6, a5, a4, e7, e6, e5, e4);
    assert Step(Regs(a7, a6, a5, a4, e7, e6, e5, e4), k[15]) == Regs(a8, a7, a6, a5, e8, e7, e6, e5);
  }

  lemma Steps48()
    ensures EightSteps(STATE48, KEYS48[0], KEYS48[1], KEYS48[2], KEYS48[3],
      KEYS48[4], KEYS48[5], KEYS48[6], KEYS48[7]) == STATE56
  {
    var k := KEYS48;
    var Regs(a, b, c, d, e, f, g, h) := STATE48;
    var a1, a2, a3, a4: word := 0x05757ceb, 0xf11bfaa8, 0x7a0508a1, 0x886e7a22;
    var e1, e2, e3, e4: word := 0xbd714038, 0x6e5c390c, 0x52f1ccf7, 0x49231c1e;
    var a5, a6, a7, a8: word := 0x101fd28f, 0xf5702fdb, 0x3ec45cdb, 0x38cc9913;
    var e5, e6, e7, e8: word := 0x529e7d00, 0x9f4787c3, 0xe50e1b4f, 0x54cb266b;
    assert Step(Regs(a, b, c, d, e, f, g, h), k[0]) == Regs(a1, a, b, c, e1, e, f, g);
    assert Step(Regs(a1, a, b, c, e1, e, f, g), k[1]) == Regs(a2, a1, a, b, e2, e1, e, f);
    assert Step(Regs(a2, a1, a, b, e2, e1, e, f), k[2]) == Regs(a3, a2, a1, a, e3, e2, e1, e);
    assert Step(Regs(a3, a2, a1, a, e3, e2, e1, e), k[3]) == Regs(a4, a3, a2, a1, e4, e3, e2, e1);
    assert Step(Regs(a4, a3, a2, a1, e4, e3, e2, e1), k[4]) == Regs(a5, a4, a3, a2, e5, e4, e3, e2);
    assert Step(Regs(a5, a4, a3, a2, e5, e4, e3, e2), k[5]) == Regs(a6, a5, a4, a3, e6, e5, e4, e3);
    assert Step(Regs(a6, a5, a4, a3, e6, e5, e4, e3), k[6]) == Regs(a7, a6, a5, a4, e7, e6, e5, e4);
    assert Step(Regs(a7, a6, a5, a4, e7, e6, e5, e4), k[7]) == Regs(a8, a7, a6, a5, e8, e7, e6, e5);
  }

  lemma Steps56()
    ensures EightSteps(STATE56, KEYS48[8], KEYS48[9], KEYS48[10], KEYS48[11],
      KEYS48[12], KEYS48[13], KEYS48[14], KEYS48[15]) == STATE64
  {
    var k := KEYS48;
    var Regs(a, b, c, d, e, f, g, h) := STATE56;
    var a1, a2, a3, a4: word := 0xfcd1887b, 0xc062d46f, 0xffb70472, 0xb6ae8fff;
    var e1, e2, e3, e4: word := 0x9b5e906c, 0x7e44008e, 0x6d83bfc6, 0xb21bad3d;
    var a5, a6, a7, a8: word := 0xb85e2ce9, 0x04d24d6c, 0xd39a2165, 0x506e3058;
    var e5, e6, e7, e8: word := 0x961f4894, 0x948d25b6, 0xfb121210, 0x5ef50f24;
    assert Step(Regs(a, b, c, d, e, f, g, h), k[8]) == Regs(a1, a, b, c, e1, e, f, g);
    assert Step(Regs(a1, a, b, c, e1, e, f, g), k[9]) == Regs(a2, a1, a, b, e2, e1, e, f);
    assert Step(Regs(a2, a1, a, b, e2, e1, e, f), k[10]) == Regs(a3, a2, a1, a, e3, e2, e1, e);
    assert Step(Regs(a3, a2, a1, a, e3, e2, e1, e), k[11]) == Regs(a4, a3, a2, a1, e4, e3, e2, e1);
    assert Step(Regs(a4, a3, a2, a1, e4, e3, e2, e1), k[12]) == Regs(a5, a4, a3, a2, e5, e4, e3, e2);
    assert Step(Regs(a5, a4, a3, a2, e5, e4, e3, e2), k[13]) == Regs(a6, a5, a4, a3, e6, e5, e4, e3);
    assert Step(Regs(a6, a5, a4, a3, e6, e5, e4, e3), k[14]) == Regs(a7, a6, a5, a4, e7, e6, e5, e4);
    assert Step(Regs(a7, a6, a5, a4, e7, e6, e5, e4), k[15]) == Regs(a8, a7, a6, a5, e8, e7, e6, e5);
  }

  lemma AllRounds(s: Regs, m: Words)
    requires s == INITIAL
    requires Keys(KEYS0, m, 0) && Keys(KEYS16, m, 16) && Keys(KEYS32, m, 32) && Keys(KEYS48, m, 48)
    ensures Rounds(s, m, 64) == STATE64
  {
    hide *;
    StartsAt(s, m);
    Steps0();
    Steps8();
    Steps16();
    Steps24();
    Steps32();
    Steps40();
    Steps48();
    Steps56();
    FirstTo(s, m, 0, KEYS0, STATE0, STATE8);
    LastTo(s, m, 0, KEYS0, STATE8, STATE16);
    FirstTo(s, m, 16, KEYS16, STATE16, STATE24);
    LastTo(s, m, 16, KEYS16, STATE24, STATE32);
    FirstTo(s, m, 32, KEYS32, STATE32, STATE40);
    LastTo(s, m, 32, KEYS32, STATE40, STATE48);
    FirstTo(s, m, 48, KEYS48, STATE48, STATE56);
    LastTo(s, m, 48, KEYS48, STATE56, STATE64);
  }

  lemma StartsAt(s: Regs, m: Words)
    requires s == INITIAL
    ensures Rounds(s, m, 0) == STATE0
  {
  }

  /** The hash value, word by word. */
  const HASH := Regs(0xba7816bf, 0x8f01cfea, 0x414140de, 0x5dae2223,
    0xb00361a3, 0x96177a9c, 0xb410ff61, 0xf20015ad)

  lemma AddedUp()
    ensures AddRegs(INITIAL, STATE64) == HASH
  {
  }

  lemma CompressAbc(s: Regs, m: Words)
    requires s == INITIAL && m == ABC0
    ensures Compress(s, m) == HASH
  {
    hide Rounds, Keys, ABC0, INITIAL, HASH, AddRegs, Window;
    AbcKeys(m);
    AllRounds(s, m);
    AddedUp();
  }

  const DIGEST: seq<byte> := [
    0xba, 0x78, 0x16, 0xbf, 0x8f, 0x01, 0xcf, 0xea, 0x41, 0x41, 0x40, 0xde, 0x5d, 0xae, 0x22, 0x23,
    0xb0, 0x03, 0x61, 0xa3, 0x96, 0x17, 0x7a, 0x9c, 0xb4, 0x10, 0xff, 0x61, 0xf2, 0x00, 0x15, 0xad]

  lemma DigestIs()
    ensures BytesOf(HASH) == DIGEST
  {
  }

  const MESSAGE: seq<byte> := [0x61, 0x62, 0x63]

  lemma LengthIs(n: nat)
    requires n == 24
    ensures WriteBE64(n) == [0, 0, 0, 0, 0, 0, 0, 24]
  {
    hide ByteOf;
    TwoBytes();
  }

  lemma TwoBytes()
    ensures ByteOf(0) == 0 && ByteOf(24) == 24
  {
  }

  /** The padded message, byte by byte. */
  lemma BlockAt(m: seq<byte>)
    requires m == MESSAGE
    ensures |Padded(m)| == 64
    ensures forall i | 0 <= i < 64 ::
      Padded(m)[i] == if i < 3 then m[i] else if i == 3 then 0x80 else if i == 63 then 24 else 0
  {
    hide WriteBE64;
    LengthIs(8 * |m|);
  }

  lemma BlockIs()
    ensures |Padded(MESSAGE)| == 64 && WordsOf(Padded(MESSAGE)) == ABC0
  {
    hide Padded, ReadBE32;
    BlockAt(MESSAGE);
    ReadAbc();
  }

  lemma ReadAbc()
    ensures ReadBE32(0x61, 0x62, 0x63, 0x80) == 0x61626380
    ensures ReadBE32(0, 0, 0, 0) == 0 && ReadBE32(0, 0, 0, 24) == 24
  {
  }

  /** SHA-256 of "abc". */
  lemma HashOfAbc()
    ensures Sha256([0x61, 0x62, 0x63]) == DIGEST
  {
    hide Compress, CompressAll, WordsOf, BytesOf, Padded, ABC0, HASH, INITIAL, DIGEST;
    BlockIs();
    OneBlock(INITIAL, Padded(MESSAGE));
    CompressAbc(INITIAL, WordsOf(Padded(MESSAGE)));
    DigestIs();
  }
}
